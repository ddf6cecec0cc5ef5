/** Python string primitives the normaliser relies on: `str.isspace`, `str.strip`,
    `str.split(sep)`, the `in` substring test and `int()` on a signed decimal. */
module Strings {
  import opened Wrappers

  /** The characters Python's `str.isspace()` accepts; `str.strip()` removes exactly
      these and the regex class `\s` matches exactly these in a `str` pattern. */
  predicate IsSpace(c: char) {
    c == ' ' || ('\t' <= c <= '\r') || ('\U{1C}' <= c <= '\U{1F}')
    || c == '\U{85}' || c == '\U{A0}' || c == '\U{1680}'
    || ('\U{2000}' <= c <= '\U{200A}') || c == '\U{2028}' || c == '\U{2029}'
    || c == '\U{202F}' || c == '\U{205F}' || c == '\U{3000}'
  }

  predicate AllSpace(s: string) {
    forall i :: 0 <= i < |s| ==> IsSpace(s[i])
  }

  /** No whitespace at either end: what `str.strip()` leaves. */
  predicate IsStripped(s: string) {
    s == [] || (!IsSpace(s[0]) && !IsSpace(s[|s| - 1]))
  }

  /** End of the run of whitespace that starts at `i`. */
  function LeadEnd(s: string, i: nat): (a: nat)
    requires i <= |s|
    ensures i <= a <= |s|
    ensures forall k :: i <= k < a ==> IsSpace(s[k])
    ensures a < |s| ==> !IsSpace(s[a])
    decreases |s| - i
  {
    if i == |s| || !IsSpace(s[i]) then i else LeadEnd(s, i + 1)
  }

  /** Start of the run of whitespace that ends at `j`, going no lower than `lo`. */
  function TrailStart(s: string, lo: nat, j: nat): (b: nat)
    requires lo <= j <= |s|
    ensures lo <= b <= j
    ensures forall k :: b <= k < j ==> IsSpace(s[k])
    ensures b > lo ==> !IsSpace(s[b - 1])
  {
    if j == lo || !IsSpace(s[j - 1]) then j else TrailStart(s, lo, j - 1)
  }

  /** `str.strip()`: drops whitespace at both ends. */
  function Strip(s: string): (r: string)
    ensures |r| <= |s|
    ensures IsStripped(r)
    ensures r == [] <==> AllSpace(s)
  {
    var a := LeadEnd(s, 0);
    var b := TrailStart(s, a, |s|);
    assert a < b ==> !IsSpace(s[a]);
    s[a..b]
  }

  /** What `str.strip()` keeps is a substring with only whitespace around it. */
  lemma StripIsSubstring(s: string)
    ensures exists a :: 0 <= a <= |s| - |Strip(s)| && Strip(s) == s[a..a + |Strip(s)|]
                        && AllSpace(s[..a]) && AllSpace(s[a + |Strip(s)|..])
  {
    var a := LeadEnd(s, 0);
    var b := TrailStart(s, a, |s|);
    assert Strip(s) == s[a..b];
    assert AllSpace(s[..a]) by {
      forall k | 0 <= k < a ensures IsSpace(s[..a][k]) { assert s[..a][k] == s[k]; }
    }
    assert AllSpace(s[b..]) by {
      forall k | 0 <= k < |s| - b ensures IsSpace(s[b..][k]) { assert s[b..][k] == s[b + k]; }
    }
    assert a + |Strip(s)| == b;
  }

  /** Leading whitespace never survives a strip, so a separator's trailing `\s*`
      may as well stay on the next piece. */
  lemma StripIgnoresLeadingSpace(ws: string, t: string)
    requires AllSpace(ws)
    ensures Strip(ws + t) == Strip(t)
  {
    var u := ws + t;
    var a := LeadEnd(t, 0);
    var b := TrailStart(t, a, |t|);
    assert LeadEnd(u, 0) == |ws| + a by {
      LeadEndSkipsSpace(ws, t, 0);
      LeadEndShift(ws, t, 0);
    }
    assert TrailStart(u, |ws| + a, |u|) == |ws| + b by {
      TrailStartShift(ws, t, a, |t|);
    }
    assert Strip(u) == u[|ws| + a..|ws| + b] by {
      StripBounds(u);
    }
    assert Strip(t) == t[a..b] by {
      StripBounds(t);
    }
    SliceOfAppend(ws, t, a, b);
  }

  lemma StripBounds(s: string)
    ensures Strip(s) == s[LeadEnd(s, 0)..TrailStart(s, LeadEnd(s, 0), |s|)]
  {
  }

  lemma SliceOfAppend(p: string, t: string, a: nat, b: nat)
    requires a <= b <= |t|
    ensures (p + t)[|p| + a..|p| + b] == t[a..b]
  {
    assert forall k :: 0 <= k < b - a ==> (p + t)[|p| + a..|p| + b][k] == t[a..b][k];
  }

  lemma {:induction false} LeadEndSkipsSpace(ws: string, t: string, i: nat)
    requires AllSpace(ws) && i <= |ws|
    ensures LeadEnd(ws + t, i) == LeadEnd(ws + t, |ws|)
    decreases |ws| - i
  {
    if i < |ws| {
      assert (ws + t)[i] == ws[i];
      LeadEndSkipsSpace(ws, t, i + 1);
    }
  }

  lemma {:induction false} LeadEndShift(p: string, t: string, k: nat)
    requires k <= |t|
    ensures LeadEnd(p + t, |p| + k) == |p| + LeadEnd(t, k)
    decreases |t| - k
  {
    if k < |t| {
      assert (p + t)[|p| + k] == t[k];
      LeadEndShift(p, t, k + 1);
    }
  }

  lemma {:induction false} TrailStartShift(p: string, t: string, lo: nat, j: nat)
    requires lo <= j <= |t|
    ensures TrailStart(p + t, |p| + lo, |p| + j) == |p| + TrailStart(t, lo, j)
  {
    if j > lo {
      assert (p + t)[|p| + j - 1] == t[j - 1];
      TrailStartShift(p, t, lo, j - 1);
    }
  }

  /** `[p.strip() for p in ps if p.strip()]`: strip every piece, drop the empty ones. */
  function Clean(ps: seq<string>): (r: seq<string>)
    ensures |r| <= |ps|
    ensures forall k :: 0 <= k < |r| ==> r[k] != [] && IsStripped(r[k])
  {
    if ps == [] then []
    else
      var rest := Clean(ps[1..]);
      if Strip(ps[0]) == [] then rest else [Strip(ps[0])] + rest
  }

  lemma {:induction false} CleanAppend(a: seq<string>, b: seq<string>)
    ensures Clean(a + b) == Clean(a) + Clean(b)
  {
    if a != [] {
      assert (a + b)[1..] == a[1..] + b;
      assert (a + b)[0] == a[0];
      CleanAppend(a[1..], b);
    } else {
      assert a + b == b;
    }
  }

  /** A single piece is kept, stripped, exactly when it is not blank; with `CleanAppend`
      this fixes the result of `Clean` piece by piece. */
  lemma CleanOne(p: string)
    ensures Clean([p]) == if Strip(p) == [] then [] else [Strip(p)]
  {
    assert [p][1..] == [];
  }

  /** The kept pieces are exactly the non-blank input pieces, stripped. */
  lemma {:induction false} CleanMembers(ps: seq<string>)
    ensures forall x :: x in Clean(ps) <==> x != [] && exists p :: p in ps && Strip(p) == x
  {
    if ps != [] {
      CleanMembers(ps[1..]);
      assert forall p :: p in ps <==> p == ps[0] || p in ps[1..];
    }
  }

  /** Index of the first occurrence of `c` in `s`. */
  function IndexOf(s: string, c: char): (i: nat)
    requires c in s
    ensures i < |s| && s[i] == c && c !in s[..i]
  {
    if s[0] == c then 0 else 1 + IndexOf(s[1..], c)
  }

  /** `sep.join(ps)` for a one-character separator. */
  function JoinWith(ps: seq<string>, sep: char): (r: string) {
    if ps == [] then []
    else if |ps| == 1 then ps[0]
    else ps[0] + [sep] + JoinWith(ps[1..], sep)
  }

  /** `s.split(sep)` for a one-character separator: never empty, no piece holds
      `sep`, and joining the pieces again gives back `s`. */
  function SplitOn(s: string, sep: char): (r: seq<string>)
    ensures |r| >= 1
    ensures forall k :: 0 <= k < |r| ==> sep !in r[k]
    ensures JoinWith(r, sep) == s
    decreases |s|
  {
    if sep !in s then [s]
    else
      var i := IndexOf(s, sep);
      var rest := SplitOn(s[i + 1..], sep);
      assert s == s[..i] + [sep] + s[i + 1..];
      [s[..i]] + rest
  }

  /** Splitting undoes joining: the other half of the round trip. */
  lemma {:induction false} SplitOnJoin(ps: seq<string>, sep: char)
    requires |ps| >= 1
    requires forall k :: 0 <= k < |ps| ==> sep !in ps[k]
    ensures SplitOn(JoinWith(ps, sep), sep) == ps
  {
    if |ps| > 1 {
      var s := JoinWith(ps, sep);
      var tail := JoinWith(ps[1..], sep);
      assert s == ps[0] + [sep] + tail;
      assert s[|ps[0]|] == sep;
      assert s[..|ps[0]|] == ps[0];
      assert IndexOf(s, sep) == |ps[0]|;
      assert s[|ps[0]| + 1..] == tail;
      SplitOnJoin(ps[1..], sep);
    }
  }

  predicate IsPrefix(t: string, s: string) {
    |t| <= |s| && s[..|t|] == t
  }

  /** `t` occurs in `s` starting at position `i`. */
  predicate OccursAt(s: string, t: string, i: int) {
    0 <= i <= |s| - |t| && s[i..i + |t|] == t
  }

  /** Python's substring test `t in s`: the empty string is in every string, and a longer
      string is in none. */
  function Contains(s: string, t: string): (b: bool)
    ensures t == [] ==> b
    ensures b ==> |t| <= |s|
  {
    if IsPrefix(t, s) then true
    else if s == [] then false
    else Contains(s[1..], t)
  }

  /** `t in s` holds exactly when `t` occurs in `s` at some position. */
  lemma {:induction false} ContainsMeaning(s: string, t: string)
    ensures Contains(s, t) <==> exists i :: OccursAt(s, t, i)
  {
    if IsPrefix(t, s) {
      assert OccursAt(s, t, 0);
    } else if s != [] {
      ContainsMeaning(s[1..], t);
      if Contains(s[1..], t) {
        var i :| OccursAt(s[1..], t, i);
        assert s[i + 1..i + 1 + |t|] == s[1..][i..i + |t|];
        assert OccursAt(s, t, i + 1);
      }
      if i :| OccursAt(s, t, i) {
        assert i != 0;
        assert s[1..][i - 1..i - 1 + |t|] == s[i..i + |t|];
        assert OccursAt(s[1..], t, i - 1);
      }
    }
  }

  predicate IsDigit(c: char) {
    '0' <= c <= '9'
  }

  predicate AllDigits(s: string) {
    forall i :: 0 <= i < |s| ==> IsDigit(s[i])
  }

  function DigitValue(c: char): (r: nat)
    requires IsDigit(c)
  {
    (c as int) - ('0' as int)
  }

  /** The number an ASCII decimal numeral denotes, most significant digit first. */
  function DigitsValue(s: string): (r: nat)
    requires AllDigits(s)
  {
    if s == [] then 0 else DigitsValue(s[..|s| - 1]) * 10 + DigitValue(s[|s| - 1])
  }

  /** `int(s)` restricted to an optional sign and ASCII digits, surrounding
      whitespace allowed; `None` where Python raises `ValueError`. */
  function ParseInt(s: string): (r: Option<int>)
    ensures r.Some? ==> Strip(s) != []
    ensures r.Some? && r.value < 0 ==> Strip(s)[0] == '-'
    ensures Strip(s) != [] && AllDigits(Strip(s)) ==> r == Some(DigitsValue(Strip(s)))
  {
    var t := Strip(s);
    if t != [] && (t[0] == '+' || t[0] == '-') then
      var d := t[1..];
      if d != [] && AllDigits(d) then
        var v: int := DigitsValue(d);
        Some(if t[0] == '-' then -v else v)
      else None
    else if t != [] && AllDigits(t) then Some(DigitsValue(t))
    else None
  }

  /** A numeral `int()` accepts once stripped: ASCII digits, optionally after one sign. */
  predicate IsNumeral(t: string) {
    t != [] && (AllDigits(t) || ((t[0] == '+' || t[0] == '-') && |t| > 1 && AllDigits(t[1..])))
  }

  /** The value of a numeral, sign included. */
  function NumeralValue(t: string): (r: int)
    requires IsNumeral(t)
  {
    if t[0] == '-' then -(DigitsValue(t[1..]) as int)
    else if t[0] == '+' then DigitsValue(t[1..])
    else DigitsValue(t)
  }

  /** `int()` succeeds exactly on a stripped numeral and then gives its signed value. */
  lemma ParseIntMeaning(s: string)
    ensures ParseInt(s).Some? <==> IsNumeral(Strip(s))
    ensures IsNumeral(Strip(s)) ==> ParseInt(s).value == NumeralValue(Strip(s))
  {
    var t := Strip(s);
    if t != [] && (t[0] == '+' || t[0] == '-') {
      assert !IsDigit(t[0]);
    }
  }

  /** A sign and leading whitespace are accepted. */
  lemma ParseSigned()
    ensures ParseInt(" -12") == Some(-12)
    ensures ParseInt("+5") == Some(5)
  {
    assert AllSpace(" ") && " -12" == " " + "-12";
    StripIgnoresLeadingSpace(" ", "-12");
    StripOfStripped("-12");
    assert "-12"[1..] == "12" && "12"[..1] == "1" && "1"[..0] == [];
    StripOfStripped("+5");
    assert "+5"[1..] == "5" && "5"[..0] == [];
  }

  /** Leading zeros are accepted. */
  lemma ParseZeroPadded()
    ensures ParseInt("007") == Some(7)
  {
    StripOfStripped("007");
    assert "007"[..2] == "00" && "00"[..1] == "0" && "0"[..0] == [];
  }

  /** Trailing junk and a bare sign are rejected. */
  lemma ParseRejects()
    ensures ParseInt("12a") == None
    ensures ParseInt("-") == None
  {
    StripOfStripped("12a");
    assert !IsDigit("12a"[2]);
    StripOfStripped("-");
  }

  /** `str(n)` for a natural number: shortest decimal numeral. */
  function ShowNat(n: nat): (r: string)
    ensures r != [] && AllDigits(r)
    ensures DigitsValue(r) == n
    ensures r[0] == '0' ==> n == 0
  {
    var d := ((n % 10) + ('0' as int)) as char;
    if n < 10 then [d]
    else
      var h := ShowNat(n / 10);
      var r := h + [d];
      assert r[..|r| - 1] == h;
      r
  }

  /** `str(n)` for an integer. */
  function ShowInt(n: int): (r: string) {
    if n < 0 then "-" + ShowNat(-n) else ShowNat(n)
  }

  /** `int(str(n)) == n`: parsing undoes showing. */
  lemma ParseShowInt(n: int)
    ensures ParseInt(ShowInt(n)) == Some(n)
  {
    var s := ShowInt(n);
    if n < 0 {
      var m := ShowNat(-n);
      assert s == "-" + m && s[1..] == m;
      assert s[|s| - 1] == m[|m| - 1] && IsDigit(m[|m| - 1]);
      StripOfStripped(s);
    } else {
      var m := ShowNat(n);
      assert IsDigit(m[0]) && IsDigit(m[|m| - 1]);
      StripOfStripped(s);
    }
  }

  lemma StripOfStripped(s: string)
    requires s == [] || (!IsSpace(s[0]) && !IsSpace(s[|s| - 1]))
    ensures Strip(s) == s
  {
  }

  /** `str` is injective on integers. */
  lemma ShowIntInjective(m: int, n: int)
    ensures ShowInt(m) == ShowInt(n) <==> m == n
  {
    if ShowInt(m) == ShowInt(n) {
      ParseShowInt(m);
      ParseShowInt(n);
    }
  }
}
