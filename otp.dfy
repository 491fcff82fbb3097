/**
 * The one-time-code table (`otps`): issuing a code, looking up a usable one,
 * consuming it, and the periodic removal of expired codes. Instants are UTC
 * microseconds, as `datetime.utcnow()` reads them.
 */
module Otp {

  import opened Wrappers

  /** A row of `otps`. */
  datatype OtpEntry = OtpEntry(email: string, code: string, expiresAt: int)

  /** Codes expire ten minutes after they are issued. */
  const Lifetime: int := 10 * 60 * 1000000

  /** The characters Python's `str.strip()` removes (`str.isspace`). */
  predicate IsPyWhitespace(c: char)
  {
    c == '\t' || c == '\n' || c == '\U{000B}' || c == '\U{000C}' || c == '\r'
    || ('\U{001C}' <= c <= '\U{001F}') || c == ' ' || c == '\U{0085}' || c == '\U{00A0}'
    || c == '\U{1680}' || ('\U{2000}' <= c <= '\U{200A}') || c == '\U{2028}' || c == '\U{2029}'
    || c == '\U{202F}' || c == '\U{205F}' || c == '\U{3000}'
  }

  function TrimStart(s: string): (r: string)
    ensures |r| <= |s| && r == s[|s| - |r|..]
    ensures forall i :: 0 <= i < |s| - |r| ==> IsPyWhitespace(s[i])
    ensures r != [] ==> !IsPyWhitespace(r[0])
  {
    if s != [] && IsPyWhitespace(s[0]) then TrimStart(s[1..]) else s
  }

  function TrimEnd(s: string): (r: string)
    ensures |r| <= |s| && r == s[..|r|]
    ensures forall i :: |r| <= i < |s| ==> IsPyWhitespace(s[i])
    ensures r != [] ==> !IsPyWhitespace(r[|r| - 1])
  {
    if s != [] && IsPyWhitespace(s[|s| - 1]) then TrimEnd(s[..|s| - 1]) else s
  }

  /** `r` is `s[i..j]`, and everything of `s` outside it is whitespace. */
  predicate StrippedAt(s: string, r: string, i: int, j: int)
  {
    0 <= i <= j <= |s| && r == s[i..j]
    && (forall k :: 0 <= k < i ==> IsPyWhitespace(s[k]))
    && (forall k :: j <= k < |s| ==> IsPyWhitespace(s[k]))
  }

  /** `str.strip()`: the longest run of `s` that neither starts nor ends with whitespace. */
  function Strip(s: string): (r: string)
    ensures exists i, j :: StrippedAt(s, r, i, j)
    ensures r != [] ==> !IsPyWhitespace(r[0]) && !IsPyWhitespace(r[|r| - 1])
  {
    var a := TrimStart(s);
    var r := TrimEnd(a);
    CutWitness(s, a, r);
    r
  }

  /** Cutting whitespace off the start of `s`, giving `a`, then off the end of `a`, giving `r`, leaves `s[i..j]`. */
  lemma CutWitness(s: string, a: string, r: string)
    requires |a| <= |s| && a == s[|s| - |a|..] && forall k :: 0 <= k < |s| - |a| ==> IsPyWhitespace(s[k])
    requires a != [] ==> !IsPyWhitespace(a[0])
    requires |r| <= |a| && r == a[..|r|] && forall k :: |r| <= k < |a| ==> IsPyWhitespace(a[k])
    requires r != [] ==> !IsPyWhitespace(r[|r| - 1])
    ensures StrippedAt(s, r, |s| - |a|, |s| - |a| + |r|)
    ensures r != [] ==> !IsPyWhitespace(r[0]) && !IsPyWhitespace(r[|r| - 1])
  {
    var i := |s| - |a|;
    assert forall k :: i + |r| <= k < |s| ==> s[k] == a[k - i];
    if r != [] {
      assert r[0] == a[0];
    }
  }

  /** `send_otp` accepts an address that, stripped, is non-empty and contains '@'. */
  predicate AcceptableEmail(stripped: string)
  {
    stripped != [] && '@' in stripped
  }

  /** The filter of the OTP lookups: same email, same code, `expires_at > now`. */
  predicate Usable(o: OtpEntry, email: string, code: string, now: int)
  {
    o.email == email && o.code == code && o.expiresAt > now
  }

  /** The position of `query(OTP).filter(email, code, expires_at > now).first()`, or |otps|. */
  function FirstUsable(otps: seq<OtpEntry>, email: string, code: string, now: int): (i: nat)
    ensures i <= |otps|
    ensures i < |otps| ==> Usable(otps[i], email, code, now)
    ensures forall j :: 0 <= j < i ==> !Usable(otps[j], email, code, now)
    ensures i == |otps| <==> forall j :: 0 <= j < |otps| ==> !Usable(otps[j], email, code, now)
  {
    if otps == [] then 0
    else if Usable(otps[0], email, code, now) then 0
    else
      var i := 1 + FirstUsable(otps[1..], email, code, now);
      assert forall j :: 1 <= j < |otps| ==> otps[j] == otps[1..][j - 1];
      i
  }

  /** Storing a new code for `email`, issued at `now`. */
  function Issue(otps: seq<OtpEntry>, email: string, code: string, now: int): seq<OtpEntry>
  {
    otps + [OtpEntry(email, code, now + Lifetime)]
  }

  /** `cleanup_expired_otps`: delete the codes with `expires_at < now`, keep the rest in order. */
  function Cleanup(otps: seq<OtpEntry>, now: int): (r: seq<OtpEntry>)
    ensures forall o :: o in r <==> o in otps && o.expiresAt >= now
    ensures |r| <= |otps|
  {
    if otps == [] then []
    else (if otps[0].expiresAt < now then [] else [otps[0]]) + Cleanup(otps[1..], now)
  }

  /** Cleanup keeps each unexpired code as often as the table holds it, and no expired one. */
  lemma {:induction false} CleanupCounts(otps: seq<OtpEntry>, now: int)
    ensures forall o :: multiset(Cleanup(otps, now))[o] == if o.expiresAt >= now then multiset(otps)[o] else 0
  {
    if otps != [] {
      CleanupCounts(otps[1..], now);
      assert otps == [otps[0]] + otps[1..];
    }
  }

  /** Cleanup keeps table order: it works row by row, so it distributes over concatenation. */
  lemma {:induction false} CleanupAppend(a: seq<OtpEntry>, b: seq<OtpEntry>, now: int)
    ensures Cleanup(a + b, now) == Cleanup(a, now) + Cleanup(b, now)
  {
    if a == [] {
      assert a + b == b;
    } else {
      assert (a + b)[0] == a[0] && (a + b)[1..] == a[1..] + b;
      CleanupAppend(a[1..], b, now);
    }
  }

  /** A freshly issued code is usable strictly before it expires, and never after. */
  lemma IssuedCodeLifetime(otps: seq<OtpEntry>, email: string, code: string, now: int, later: int)
    requires forall j :: 0 <= j < |otps| ==> !Usable(otps[j], email, code, later)
    ensures FirstUsable(Issue(otps, email, code, now), email, code, later) < |otps| + 1
        <==> later < now + Lifetime
  {
    var r := Issue(otps, email, code, now);
    assert forall j :: 0 <= j < |otps| ==> r[j] == otps[j];
    assert r[|otps|] == OtpEntry(email, code, now + Lifetime);
  }

  /** Cleanup never takes away a code that is still usable at its own time or later. */
  lemma CleanupKeepsUsable(otps: seq<OtpEntry>, now: int, later: int, email: string, code: string)
    requires later >= now
    ensures (exists o :: o in otps && Usable(o, email, code, later))
        <==> (exists o :: o in Cleanup(otps, now) && Usable(o, email, code, later))
  {
  }

  /** A code whose expiry equals the current instant is no longer usable, yet cleanup keeps it. */
  lemma ExpiryBoundary(o: OtpEntry, now: int)
    requires o.expiresAt == now
    ensures !Usable(o, o.email, o.code, now)
    ensures Cleanup([o], now) == [o]
  {
    assert Cleanup([o], now) == [o] + Cleanup([], now);
  }

  /** Consuming a code: it cannot be used a second time unless another copy was issued. */
  lemma ConsumedCodeIsGone(otps: seq<OtpEntry>, email: string, code: string, now: int)
    requires FirstUsable(otps, email, code, now) < |otps|
    requires forall j, k :: 0 <= j < k < |otps| && Usable(otps[j], email, code, now) ==> !Usable(otps[k], email, code, now)
    ensures FirstUsable(Delete(otps, FirstUsable(otps, email, code, now)), email, code, now)
         == |otps| - 1
  {
    var i := FirstUsable(otps, email, code, now);
    var r := Delete(otps, i);
    forall j | 0 <= j < |r| ensures !Usable(r[j], email, code, now) {
      if j < i { assert r[j] == otps[j]; } else { assert r[j] == otps[j + 1]; }
    }
  }
}
