/**
 * The PHP string primitives the data layer relies on, over plain ASCII
 * strings: strpos, str_replace, a single preg_replace of one character,
 * implode/explode, integer-to-string conversion, strtolower and ucfirst.
 */
module Text {
  import opened Wrappers

  // ---------------------------------------------------------------------
  // Searching (strpos)

  /** `pat` occurs in `s` starting at index `i`. */
  predicate OccursAt(s: string, pat: string, i: nat) {
    i + |pat| <= |s| && s[i..i + |pat|] == pat
  }

  /**
   * The index of the first occurrence of `pat` in `s`, as PHP's strpos
   * returns it (`None` for `false`); an empty needle is found at 0.
   */
  function FirstIndex(s: string, pat: string): (r: Option<nat>)
    ensures r.Some? ==> r.value + |pat| <= |s|
    decreases |s|
  {
    if |s| < |pat| then None
    else if s[..|pat|] == pat then Some(0)
    else
      match FirstIndex(s[1..], pat)
      case None => None
      case Some(k) => Some(k + 1)
  }

  /** FirstIndex finds an occurrence, and none comes before it. */
  lemma {:induction false} FirstIndexSpec(s: string, pat: string)
    ensures FirstIndex(s, pat).Some? ==> OccursAt(s, pat, FirstIndex(s, pat).value)
    ensures FirstIndex(s, pat).Some? ==> forall j: nat :: j < FirstIndex(s, pat).value ==> !OccursAt(s, pat, j)
    ensures FirstIndex(s, pat).None? ==> forall j: nat :: !OccursAt(s, pat, j)
    decreases |s|
  {
    if |s| >= |pat| {
      assert s[0..|pat|] == s[..|pat|];
      if s[..|pat|] != pat {
        FirstIndexSpec(s[1..], pat);
        OccursShift(s, pat);
      }
    }
  }

  /** An occurrence in `s[1..]` is one in `s`, one place further on. */
  lemma OccursShift(s: string, pat: string)
    requires |s| > 0
    ensures forall j: nat :: OccursAt(s[1..], pat, j) ==> OccursAt(s, pat, j + 1)
    ensures forall j: nat :: 0 < j && OccursAt(s, pat, j) ==> OccursAt(s[1..], pat, j - 1)
  {
    forall j: nat ensures OccursAt(s[1..], pat, j) <==> OccursAt(s, pat, j + 1) {
      if j + 1 + |pat| <= |s| {
        assert s[1..][j..j + |pat|] == s[j + 1..j + 1 + |pat|];
      }
    }
  }

  /** An occurrence at `k` bounds the first occurrence. */
  lemma FirstIndexAtMost(s: string, pat: string, k: nat)
    requires OccursAt(s, pat, k)
    ensures FirstIndex(s, pat).Some? && FirstIndex(s, pat).value <= k
  {
    FirstIndexSpec(s, pat);
  }

  // ---------------------------------------------------------------------
  // Replacing

  /**
   * preg_replace('/c/', rep, s, 1): the first `c` of `s` becomes `rep`;
   * `s` is returned unchanged when it holds no `c`.
   */
  function ReplaceFirst(s: string, c: char, rep: string): string {
    if s == [] then []
    else if s[0] == c then rep + s[1..]
    else [s[0]] + ReplaceFirst(s[1..], c, rep)
  }

  lemma {:induction false} ReplaceFirstAbsent(s: string, c: char, rep: string)
    requires c !in s
    ensures ReplaceFirst(s, c, rep) == s
  {
    if s != [] { ReplaceFirstAbsent(s[1..], c, rep); }
  }

  lemma {:induction false} ReplaceFirstAt(a: string, b: string, c: char, rep: string)
    requires c !in a
    ensures ReplaceFirst(a + [c] + b, c, rep) == a + rep + b
  {
    if a == [] {
      assert a + [c] + b == [c] + b;
    } else {
      assert (a + [c] + b)[1..] == a[1..] + [c] + b;
      ReplaceFirstAt(a[1..], b, c, rep);
    }
  }

  /**
   * str_replace(pat, rep, s): every occurrence of `pat`, found left to right
   * without overlap, becomes `rep`; the inserted text is not searched again.
   * An empty `pat` leaves `s` unchanged.
   */
  function ReplaceAll(s: string, pat: string, rep: string): string
    decreases |s|
  {
    if pat == [] then s
    else match FirstIndex(s, pat)
      case None => s
      case Some(f) => s[..f] + rep + ReplaceAll(s[f + |pat|..], pat, rep)
  }

  /** A longer replacement never shortens the text, a shorter one never lengthens it. */
  lemma {:induction false} ReplaceAllLengthOrder(s: string, pat: string, rep: string)
    ensures |rep| >= |pat| ==> |ReplaceAll(s, pat, rep)| >= |s|
    ensures |rep| <= |pat| ==> |ReplaceAll(s, pat, rep)| <= |s|
    decreases |s|
  {
    if pat != [] && FirstIndex(s, pat).Some? {
      var f := FirstIndex(s, pat).value;
      ReplaceAllLengthOrder(s[f + |pat|..], pat, rep);
    }
  }

  /** A match at the very start is replaced, and the scan goes on after it. */
  lemma ReplaceAllAtHead(pat: string, w: string, rep: string)
    requires pat != []
    ensures ReplaceAll(pat + w, pat, rep) == rep + ReplaceAll(w, pat, rep)
  {
    var s := pat + w;
    assert s[..|pat|] == pat;
    assert FirstIndex(s, pat) == Some(0);
    assert s[|pat|..] == w;
    assert s[..0] == [];
  }

  /**
   * str_replace leaves the text as it was exactly when the token does not
   * occur in it, or the replacement is the token itself.
   */
  lemma ReplaceAllUnchanged(s: string, pat: string, rep: string)
    requires pat != []
    ensures ReplaceAll(s, pat, rep) == s <==> FirstIndex(s, pat).None? || rep == pat
  {
    if FirstIndex(s, pat).None? {
    } else if rep == pat {
      ReplaceAllIdentity(s, pat);
    } else if |rep| == |pat| {
      ReplaceAllChangesAtFirst(s, pat, rep);
    } else {
      ReplaceAllChangesLength(s, pat, rep);
    }
  }

  lemma ReplaceAllChangesAtFirst(s: string, pat: string, rep: string)
    requires pat != [] && FirstIndex(s, pat).Some? && |rep| == |pat| && rep != pat
    ensures ReplaceAll(s, pat, rep) != s
  {
    var f := FirstIndex(s, pat).value;
    FirstIndexSpec(s, pat);
    var r := ReplaceAll(s, pat, rep);
    var tail := ReplaceAll(s[f + |pat|..], pat, rep);
    assert r == s[..f] + rep + tail;
    assert r[f..f + |rep|] == rep;
    assert s[f..f + |pat|] == pat;
  }

  lemma ReplaceAllChangesLength(s: string, pat: string, rep: string)
    requires pat != [] && FirstIndex(s, pat).Some? && |rep| != |pat|
    ensures |ReplaceAll(s, pat, rep)| != |s|
  {
    var f := FirstIndex(s, pat).value;
    var rest := s[f + |pat|..];
    var tail := ReplaceAll(rest, pat, rep);
    assert ReplaceAll(s, pat, rep) == s[..f] + rep + tail;
    ReplaceAllLengthOrder(rest, pat, rep);
    var a, b := |tail|, |rest|;
    assert |s| == f + |pat| + b;
    assert |ReplaceAll(s, pat, rep)| == f + |rep| + a;
  }

  lemma {:induction false} ReplaceAllIdentity(s: string, pat: string)
    ensures ReplaceAll(s, pat, pat) == s
    decreases |s|
  {
    if pat != [] && FirstIndex(s, pat).Some? {
      var f := FirstIndex(s, pat).value;
      FirstIndexSpec(s, pat);
      ReplaceAllIdentity(s[f + |pat|..], pat);
      assert s == s[..f] + s[f..f + |pat|] + s[f + |pat|..];
    }
  }

  // ---------------------------------------------------------------------
  // implode / explode on one separator character

  /** implode(sep, xs). */
  function Join(xs: seq<string>, sep: char): string {
    if xs == [] then ""
    else if |xs| == 1 then xs[0]
    else xs[0] + [sep] + Join(xs[1..], sep)
  }

  /** explode(sep, s): never empty; explode(",", "") is [""]. */
  function Split(s: string, sep: char): (r: seq<string>)
    ensures |r| >= 1
  {
    if s == [] then [""]
    else if s[0] == sep then [""] + Split(s[1..], sep)
    else
      var rest := Split(s[1..], sep);
      [[s[0]] + rest[0]] + rest[1..]
  }

  lemma {:induction false} SplitPlain(x: string, sep: char)
    requires sep !in x
    ensures Split(x, sep) == [x]
  {
    if x != [] {
      SplitPlain(x[1..], sep);
      assert [x[0]] + x[1..] == x;
    }
  }

  lemma {:induction false} SplitCons(x: string, rest: string, sep: char)
    requires sep !in x
    ensures Split(x + [sep] + rest, sep) == [x] + Split(rest, sep)
  {
    var s := x + [sep] + rest;
    if x == [] {
      assert s == [sep] + rest;
      assert s[1..] == rest;
    } else {
      assert s[0] == x[0] && s[1..] == x[1..] + [sep] + rest;
      SplitCons(x[1..], rest, sep);
      assert [x[0]] + x[1..] == x;
    }
  }

  /** explode undoes implode when no element contains the separator. */
  lemma {:induction false} SplitJoin(xs: seq<string>, sep: char)
    requires |xs| >= 1
    requires forall i :: 0 <= i < |xs| ==> sep !in xs[i]
    ensures Split(Join(xs, sep), sep) == xs
  {
    if |xs| == 1 {
      SplitPlain(xs[0], sep);
    } else {
      SplitCons(xs[0], Join(xs[1..], sep), sep);
      SplitJoin(xs[1..], sep);
    }
  }

  // ---------------------------------------------------------------------
  // Decimal numerals

  predicate IsDigit(c: char) { '0' <= c <= '9' }

  function DigitChar(d: nat): (c: char)
    requires d < 10
    ensures IsDigit(c)
  {
    (48 + d) as char
  }

  function DigitValue(c: char): int { c as int - 48 }

  /** The decimal digits of `n`, without leading zeros. */
  function NatToString(n: nat): (r: string)
    ensures |r| >= 1 && forall i :: 0 <= i < |r| ==> IsDigit(r[i])
  {
    if n < 10 then [DigitChar(n)] else NatToString(n / 10) + [DigitChar(n % 10)]
  }

  /** PHP's (string) cast of an integer. */
  function IntToString(i: int): string {
    if i < 0 then "-" + NatToString(-i) else NatToString(i)
  }

  /** The value of a string of decimal digits. */
  function ParseNat(s: string): int {
    if s == [] then 0 else 10 * ParseNat(s[..|s| - 1]) + DigitValue(s[|s| - 1])
  }

  function ParseInt(s: string): int {
    if s != [] && s[0] == '-' then -ParseNat(s[1..]) else ParseNat(s)
  }

  lemma {:induction false} ParseNatToString(n: nat)
    ensures ParseNat(NatToString(n)) == n
  {
    if n >= 10 {
      var s := NatToString(n);
      assert s[..|s| - 1] == NatToString(n / 10);
      ParseNatToString(n / 10);
    }
  }

  lemma ParseIntToString(i: int)
    ensures ParseInt(IntToString(i)) == i
  {
    if i < 0 {
      var t := NatToString(-i);
      assert ("-" + t)[1..] == t;
      assert ParseInt("-" + t) == -ParseNat(t);
      ParseNatToString(-i);
    } else {
      var t := NatToString(i);
      assert IsDigit(t[0]);
      assert ParseInt(t) == ParseNat(t);
      ParseNatToString(i);
    }
  }

  function Pow10(w: nat): nat { if w == 0 then 1 else 10 * Pow10(w - 1) }

  lemma {:induction false} NatToStringWidth(n: nat, w: nat)
    requires 1 <= w && n < Pow10(w)
    ensures |NatToString(n)| <= w
  {
    if n >= 10 {
      assert w >= 2;
      NatToStringWidth(n / 10, w - 1);
    }
  }

  function Zeros(k: nat): string { if k == 0 then "" else "0" + Zeros(k - 1) }

  /** `n` in decimal, zero-padded on the left to at least `w` digits. */
  function Pad(n: nat, w: nat): string {
    var t := NatToString(n);
    (if |t| < w then Zeros(w - |t|) else "") + t
  }

  lemma {:induction false} ZerosSnoc(k: nat)
    ensures Zeros(k + 1) == Zeros(k) + "0" && |Zeros(k)| == k
  {
    if k > 0 { ZerosSnoc(k - 1); }
  }

  lemma {:induction false} ParseNatZerosOnly(k: nat)
    ensures ParseNat(Zeros(k)) == 0
  {
    if k > 0 {
      ZerosSnoc(k - 1);
      var z := Zeros(k);
      assert z[..|z| - 1] == Zeros(k - 1) && z[|z| - 1] == '0';
      ParseNatZerosOnly(k - 1);
    }
  }

  /** Leading zeros do not change the value of a numeral. */
  lemma {:induction false} ParseNatZeros(k: nat, t: string)
    ensures ParseNat(Zeros(k) + t) == ParseNat(t)
    decreases |t|
  {
    if t == [] {
      assert Zeros(k) + t == Zeros(k);
      ParseNatZerosOnly(k);
    } else {
      var u := Zeros(k) + t;
      assert u[..|u| - 1] == Zeros(k) + t[..|t| - 1] && u[|u| - 1] == t[|t| - 1];
      ParseNatZeros(k, t[..|t| - 1]);
    }
  }

  lemma PadFacts(n: nat, w: nat)
    requires 1 <= w && n < Pow10(w)
    ensures |Pad(n, w)| == w && ParseNat(Pad(n, w)) == n
  {
    var t := NatToString(n);
    assert |t| <= w by {
      NatToStringWidth(n, w);
    }
    assert ParseNat(t) == n by {
      ParseNatToString(n);
    }
    if |t| < w {
      PadZeros(t, w - |t|);
    } else {
      assert Pad(n, w) == t;
    }
  }

  lemma PadZeros(t: string, k: nat)
    ensures |Zeros(k) + t| == k + |t| && ParseNat(Zeros(k) + t) == ParseNat(t)
  {
    ZerosSnoc(k);
    ParseNatZeros(k, t);
  }

  // ---------------------------------------------------------------------
  // ASCII case mapping (strtolower, ucfirst)

  function LowerChar(c: char): char { if 'A' <= c <= 'Z' then (c as int + 32) as char else c }
  function UpperChar(c: char): char { if 'a' <= c <= 'z' then (c as int - 32) as char else c }

  function Lower(s: string): (r: string)
    ensures |r| == |s| && forall i :: 0 <= i < |s| ==> r[i] == LowerChar(s[i])
  {
    if s == [] then [] else [LowerChar(s[0])] + Lower(s[1..])
  }

  function UcFirst(s: string): string {
    if s == [] then [] else [UpperChar(s[0])] + s[1..]
  }

  /** ucfirst only changes case: lower-cased, the text is the same. */
  lemma UcFirstCaseOnly(s: string)
    ensures Lower(UcFirst(s)) == Lower(s)
  {
    if s != [] {
      assert LowerChar(UpperChar(s[0])) == LowerChar(s[0]);
      assert UcFirst(s)[1..] == s[1..];
    }
  }

  /** Applying ucfirst twice is the same as applying it once. */
  lemma UcFirstIdempotent(s: string)
    ensures UcFirst(UcFirst(s)) == UcFirst(s)
  {
    if s != [] {
      assert UpperChar(UpperChar(s[0])) == UpperChar(s[0]);
    }
  }
}
