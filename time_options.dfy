/**
 * The client's hourly time picker and its normalisation of typed times
 * before they are sent to the server.
 */
module TimeOptions {

  import opened Wrappers
  import opened TimeDate

  /** One `<option value=...>label</option>` of the picker. */
  datatype TimeOption = TimeOption(value: string, caption: string)

  /** The 12-hour clock figure of hour `h` (0 < h <= 23). */
  function Hour12(h: nat): nat
  {
    if h > 12 then h - 12 else h
  }

  function Meridiem(h: nat): string
  {
    if h < 12 then "AM" else "PM"
  }

  /** The option for the hour starting at `i`: "HH:00:00" and "h AM - h PM". */
  function OptionFor(i: nat): TimeOption
    requires i < 24
  {
    TimeOption(Pad2(i) + ":00:00",
               NatToString(Hour12(i)) + " " + Meridiem(i) + " - " + NatToString(Hour12(i + 1)) + " " + Meridiem(i + 1))
  }

  lemma HourValueParses(i: nat)
    requires i < 24
    ensures ParseHMS(Pad2(i) + ":00:00") == Some(HMS(i, 0, 0))
  {
    var s := Pad2(i) + ":00:00";
    assert s[0..2] == Pad2(i) && s[3..5] == "00" && s[6..8] == "00";
    assert ParseNat("00") == 0 by {
      assert "00"[..1] == "0";
    }
    assert IsDigit(s[0]) && IsDigit(s[1]);
    assert s[2] == ':' && s[3] == '0' && s[4] == '0' && s[5] == ':' && s[6] == '0' && s[7] == '0';
  }

  /** The picker's options: the opening hours 08..21, one per hour. */
  function TimeOptionList(): (r: seq<TimeOption>)
    ensures |r| == 14
    ensures forall k :: 0 <= k < 14 ==> r[k] == OptionFor(k + 8)
  {
    seq(14, k requires 0 <= k < 14 => OptionFor(k + 8))
  }

  /**
   * `getTimeOptions`: the loop over i = 8 .. 21 as written; each pass builds
   * the option of its hour with `HourOption`.
   */
  method GetTimeOptions() returns (options: seq<TimeOption>)
    ensures options == TimeOptionList()
  {
    options := [];
    var i := 8;
    while i < 22
      invariant 8 <= i <= 22
      invariant |options| == i - 8
      invariant forall k :: 0 <= k < i - 8 ==> options[k] == OptionFor(k + 8)
    {
      var o := HourOption(i);
      options := options + [o];
      i := i + 1;
    }
  }

  /** One pass of the loop: the value, then the 12-hour figures with the AM/PM adjustments step by step. */
  method HourOption(i: nat) returns (o: TimeOption)
    requires 8 <= i < 22
    ensures o == OptionFor(i)
  {
    var h := Pad2(i);
    var value := h + ":00:00";
    var startH := i;
    var endH := i + 1;
    var startAm := if startH < 12 then "AM" else "PM";
    var endAm := if endH < 12 then "AM" else "PM";
    if startH > 12 {
      startH := startH - 12;
    }
    if endH > 12 {
      endH := endH - 12;
    }
    if endH == 12 && i != 11 {
      endAm := "PM";
    }
    if endH == 12 && i == 23 {
      endAm := "AM";
    }
    if i == 12 {
      startAm := "PM";
    }
    var caption := NatToString(startH) + " " + startAm + " - " + NatToString(endH) + " " + endAm;
    assert startH == Hour12(i) && endH == Hour12(i + 1) && startAm == Meridiem(i) && endAm == Meridiem(i + 1);
    CaptionIsOption(i, value, caption, startH, endH, startAm, endAm);
    o := TimeOption(value, caption);
  }

  /** The adjusted figures and halves of one pass give the option for hour `i`. */
  lemma CaptionIsOption(i: nat, value: string, caption: string, startH: nat, endH: nat, startAm: string, endAm: string)
    requires i < 23 && value == Pad2(i) + ":00:00"
    requires startH == Hour12(i) && endH == Hour12(i + 1) && startAm == Meridiem(i) && endAm == Meridiem(i + 1)
    requires caption == NatToString(startH) + " " + startAm + " - " + NatToString(endH) + " " + endAm
    ensures TimeOption(value, caption) == OptionFor(i)
  {
  }

  lemma SmallNumbers()
    ensures NatToString(1) == "1" && NatToString(8) == "8" && NatToString(9) == "9"
    ensures NatToString(10) == "10" && NatToString(11) == "11" && NatToString(12) == "12"
  {
    assert NatToString(10) == NatToString(1) + [Digit(0)];
    assert NatToString(11) == NatToString(1) + [Digit(1)];
    assert NatToString(12) == NatToString(1) + [Digit(2)];
  }

  /** The first option is 8 to 9 in the morning. */
  lemma FirstOption()
    ensures TimeOptionList()[0] == TimeOption("08:00:00", "8 AM - 9 AM")
  {
    SmallNumbers();
    assert Pad2(8) == "08";
  }

  /** Around noon the labels read "11 AM - 12 PM" and "12 PM - 1 PM". */
  lemma NoonOptions()
    ensures TimeOptionList()[3] == TimeOption("11:00:00", "11 AM - 12 PM")
    ensures TimeOptionList()[4] == TimeOption("12:00:00", "12 PM - 1 PM")
  {
    SmallNumbers();
    assert Pad2(11) == "11" && Pad2(12) == "12";
  }

  /** The last option is 9 to 10 in the evening. */
  lemma LastOption()
    ensures TimeOptionList()[13] == TimeOption("21:00:00", "9 PM - 10 PM")
  {
    SmallNumbers();
    assert Pad2(21) == NatToString(21);
    assert NatToString(21) == NatToString(2) + [Digit(1)];
  }

  /** Every value is the zero-padded hour the server parses back to that hour. */
  lemma OptionValuesParse()
    ensures forall k :: 0 <= k < 14 ==> |TimeOptionList()[k].value| == 8
    ensures forall k :: 0 <= k < 14 ==> ParseHMS(TimeOptionList()[k].value) == Some(HMS(k + 8, 0, 0))
  {
    forall k | 0 <= k < 14 ensures ParseHMS(TimeOptionList()[k].value) == Some(HMS(k + 8, 0, 0)) {
      HourValueParses(k + 8);
    }
  }

  // ---------------------------------------------------------------------------
  // Normalisation

  function CountColons(s: string): nat
  {
    if s == [] then 0 else (if s[0] == ':' then 1 else 0) + CountColons(s[1..])
  }

  lemma {:induction false} CountColonsAppend(a: string, b: string)
    ensures CountColons(a + b) == CountColons(a) + CountColons(b)
  {
    if a == [] {
      assert a + b == b;
    } else {
      assert (a + b)[1..] == a[1..] + b;
      CountColonsAppend(a[1..], b);
    }
  }

  /** `v.split(':').length === 2 ? v + ":00" : v`: "HH:MM" gains its seconds. */
  function Normalise(v: string): (r: string)
    ensures CountColons(v) == 1 ==> r == v + ":00"
    ensures CountColons(v) != 1 ==> r == v
  {
    if CountColons(v) + 1 == 2 then v + ":00" else v
  }

  /** Normalising twice is normalising once. */
  lemma NormaliseIdempotent(v: string)
    ensures Normalise(Normalise(v)) == Normalise(v)
  {
    if CountColons(v) == 1 {
      CountColonsAppend(v, ":00");
      assert CountColons(":00") == 1 by {
        assert ":00"[1..] == "00" && "00"[1..] == "0" && "0"[1..] == [];
      }
    }
  }

  /** A listed slot "HH:MM" normalises to the string the server parses back to that slot. */
  lemma NormalisedSlotParses(t: Time)
    requires t % 60 == 0
    ensures Normalise(FormatHHMM(t)) == FormatHHMM(t) + ":00"
    ensures ParseHMS(Normalise(FormatHHMM(t))) == Some(t)
  {
    var s := FormatHHMM(t);
    var hh, mm := Pad2(t / 3600), Pad2((t / 60) % 60);
    assert s == hh + (":" + mm);
    CountColonsAppend(hh, ":" + mm);
    CountColonsAppend(":", mm);
    NoColonInDigits(hh);
    NoColonInDigits(mm);
    assert CountColons(":") == 1;
    SlotStringRoundTrip(t);
  }

  lemma {:induction false} NoColonInDigits(s: string)
    requires forall i :: 0 <= i < |s| ==> IsDigit(s[i])
    ensures CountColons(s) == 0
  {
    if s != [] {
      NoColonInDigits(s[1..]);
    }
  }
}
