/** `SheetProcessor._parse_singers`: the performer-credit column, where a part
    `unit[member, member]` stands for the unit followed by its members. */
module Singers {
  import opened Wrappers
  import opened Strings
  import opened Seqs
  import opened ArraySplit

  /** `SINGER_PATTERN` = `(.+?)\[(.+?)\]$` can match the stripped part `p` with the
      unit ending at `k`: a non-empty unit, `[` at `k`, a non-empty body and `]` as
      the last character; `.` matches anything but a newline. (On a stripped part
      `$` can only match at the very end.) */
  predicate GroupOpensAt(p: string, k: nat) {
    && 1 <= k
    && k + 2 < |p|
    && p[k] == '['
    && p[|p| - 1] == ']'
    && '\n' !in p[..k]
    && '\n' !in p[k + 1..|p| - 1]
  }

  /** The lazy `(.+?)` settles on the first opening position, searched from `k`. */
  function FindOpen(p: string, k: nat): (r: Option<nat>)
    ensures r.Some? ==> k <= r.value && GroupOpensAt(p, r.value)
    ensures r.Some? ==> forall j :: k <= j < r.value ==> !GroupOpensAt(p, j)
    ensures r.None? ==> forall j :: k <= j ==> !GroupOpensAt(p, j)
    decreases |p| - k
  {
    if k + 2 >= |p| then None
    else if GroupOpensAt(p, k) then Some(k)
    else FindOpen(p, k + 1)
  }

  /** `SINGER_PATTERN.match(p)`: the end of the unit group, if the pattern matches. */
  function MatchGroup(p: string): (r: Option<nat>)
    ensures r.Some? ==> GroupOpensAt(p, r.value)
    ensures r.Some? ==> forall j :: 0 <= j < r.value ==> !GroupOpensAt(p, j)
    ensures r.None? ==> forall j :: !GroupOpensAt(p, j)
  {
    FindOpen(p, 1)
  }

  predicate AllNames(names: seq<string>) {
    forall j :: 0 <= j < |names| ==> names[j] != [] && IsStripped(names[j])
  }

  /** What one top-level part contributes: the names of the part once stripped. Nothing
      exactly when the part is blank, and every name is non-empty and stripped. */
  function PartNames(part: string): (r: seq<string>)
    ensures r == [] <==> AllSpace(part)
    ensures AllNames(r)
  {
    StrippedNames(Strip(part))
  }

  /** Nothing when blank; the stripped unit and then its stripped, non-empty
      comma-separated members when the pattern matches; otherwise the part itself. */
  function StrippedNames(p: string): (r: seq<string>)
    ensures r == [] <==> p == []
    ensures IsStripped(p) ==> AllNames(r)
    ensures p != [] && (forall j :: !GroupOpensAt(p, j)) ==> r == [p]
  {
    var m := MatchGroup(p);
    if p == [] then []
    else if m.Some? then
      assert p[..m.value][0] == p[0];
      GroupNames(p, m.value)
    else [p]
  }

  /** The unit and the members of a part that matched with the unit ending at `k`. */
  function GroupNames(p: string, k: nat): (r: seq<string>)
    requires GroupOpensAt(p, k)
    ensures |r| >= 1 && r[0] == Strip(p[..k])
    ensures forall j :: 1 <= j < |r| ==> r[j] != [] && IsStripped(r[j])
  {
    [Strip(p[..k])] + Clean(SplitOn(p[k + 1..|p| - 1], ','))
  }

  /** The names of a sequence of parts, in encounter order. */
  function SingerNames(parts: seq<string>): (r: seq<string>) {
    Flatten(Map(PartNames, parts), |parts|)
  }

  /** Concatenated name lists are name lists. */
  lemma {:induction false} FlattenNames(ls: seq<seq<string>>, n: nat)
    requires n <= |ls|
    requires forall i :: 0 <= i < n ==> AllNames(ls[i])
    ensures AllNames(Flatten(ls, n))
  {
    if n > 0 {
      FlattenNames(ls, n - 1);
      var a := Flatten(ls, n - 1);
      var b := ls[n - 1];
      forall j | 0 <= j < |a + b| ensures (a + b)[j] != [] && IsStripped((a + b)[j]) {
        if j >= |a| { assert (a + b)[j] == b[j - |a|]; }
      }
    }
  }

  /** Every name in the output is non-empty and stripped. */
  lemma SingerNamesAreNames(parts: seq<string>)
    ensures AllNames(SingerNames(parts))
  {
    var ls := Map(PartNames, parts);
    FlattenNames(ls, |parts|);
  }

  /** `_parse_singers`: split like `_safe_split`, then expand each part. */
  method ParseSingers(value: string) returns (names: seq<string>)
    ensures names == SingerNames(RawPieces(value))
    ensures AllNames(names)
  {
    var parts := RawPieces(value);
    names := ExpandParts(parts);
    SingerNamesAreNames(parts);
  }

  /** The loop over the parts, collecting their names in order. */
  method ExpandParts(parts: seq<string>) returns (names: seq<string>)
    ensures names == SingerNames(parts)
  {
    names := [];
    var i := 0;
    while i < |parts|
      invariant 0 <= i <= |parts|
      invariant names == Flatten(Map(PartNames, parts), i)
    {
      FlattenMapStep(PartNames, parts, i);
      names := names + PartNames(parts[i]);
      i := i + 1;
    }
  }

  /** A bracketed part the pattern does not match is kept whole: here text follows the `]`. */
  lemma MalformedGroupKept()
    ensures PartNames("A[b]c") == ["A[b]c"]
  {
    var p := "A[b]c";
    StripOfStripped(p);
    forall j ensures !GroupOpensAt(p, j) {
      assert p[|p| - 1] == 'c';
    }
  }

  /** A newline in the unit stops the pattern from matching, so the part is kept whole. */
  lemma NewlineUnitKept()
    ensures PartNames("A\nB[c]") == ["A\nB[c]"]
  {
    var p := "A\nB[c]";
    StripOfStripped(p);
    forall j: nat ensures !GroupOpensAt(p, j) {
      if 1 <= j && j + 2 < |p| && p[j] == '[' {
        assert j == 3 && p[..j][1] == '\n';
      }
    }
  }

  /** A single part yields its own names. */
  lemma SingerNamesOne(part: string)
    ensures SingerNames([part]) == PartNames(part)
  {
    var ls := Map(PartNames, [part]);
    assert Flatten(ls, 1) == Flatten(ls, 0) + ls[0];
  }

  /** Names accumulate part by part. */
  lemma SingerNamesAppend(a: seq<string>, b: seq<string>)
    ensures SingerNames(a + b) == SingerNames(a) + SingerNames(b)
  {
    FlattenMapAppend(PartNames, a, b);
  }

  /** A part `unit[body]` yields the unit, then the members listed in the body. */
  lemma GroupedPartNames(u: string, b: string)
    requires u != [] && IsStripped(u) && '[' !in u && '\n' !in u
    requires b != [] && '\n' !in b
    ensures PartNames(u + "[" + b + "]") == [u] + Clean(SplitOn(b, ','))
  {
    var p := u + "[" + b + "]";
    GroupedShape(u, b);
    PartNamesGrouped(p, |u|);
    StripOfStripped(u);
  }

  lemma GroupedShape(u: string, b: string)
    requires u != [] && IsStripped(u) && '[' !in u && '\n' !in u
    requires b != [] && '\n' !in b
    ensures var p := u + "[" + b + "]";
      && Strip(p) == p
      && GroupOpensAt(p, |u|)
      && (forall j :: 0 <= j < |u| ==> !GroupOpensAt(p, j))
      && p[..|u|] == u && p[|u| + 1..|p| - 1] == b
  {
    var p := u + "[" + b + "]";
    assert p[0] == u[0] && p[|p| - 1] == ']';
    StripOfStripped(p);
    var k := |u|;
    assert p[..k] == u && p[k + 1..|p| - 1] == b;
    forall j | 0 <= j < k ensures !GroupOpensAt(p, j) {
      assert p[j] == u[j];
    }
  }

  /** A stripped part whose first opening position is `k` expands to its group. */
  lemma PartNamesGrouped(p: string, k: nat)
    requires Strip(p) == p && GroupOpensAt(p, k)
    requires forall j :: 0 <= j < k ==> !GroupOpensAt(p, j)
    ensures PartNames(p) == GroupNames(p, k)
  {
    assert MatchGroup(p) == Some(k);
  }

  /** Without any `[` no part is grouped, and the result is exactly `_safe_split`. */
  lemma PlainValueIsSafeSplit(value: string)
    requires '[' !in value
    ensures SingerNames(RawPieces(value)) == SafeSplit(value)
  {
    var parts := RawPieces(value);
    RawPiecesJoin(value);
    forall k | 0 <= k < |parts| ensures '[' !in parts[k] {
      if '[' in parts[k] {
        InJoin(parts, ',', k, '[');
      }
    }
    PlainPartsNames(parts);
  }

  lemma {:induction false} InJoin(ps: seq<string>, sep: char, k: nat, c: char)
    requires k < |ps| && c in ps[k]
    ensures c in JoinWith(ps, sep)
  {
    if |ps| > 1 {
      if k > 0 {
        InJoin(ps[1..], sep, k - 1, c);
      }
      assert JoinWith(ps, sep) == ps[0] + [sep] + JoinWith(ps[1..], sep);
    }
  }

  /** A part without `[` cannot match the grouping pattern. */
  lemma PlainPartNames(part: string)
    requires '[' !in part
    ensures PartNames(part) == Clean([part])
  {
    var p := Strip(part);
    var lo := LeadEnd(part, 0);
    StripBounds(part);
    forall j | 0 <= j < |p| ensures p[j] != '[' {
      assert p[j] == part[lo + j];
    }
    forall j ensures !GroupOpensAt(p, j) {
    }
  }

  lemma {:induction false} PlainPartsNames(parts: seq<string>)
    requires forall k :: 0 <= k < |parts| ==> '[' !in parts[k]
    ensures SingerNames(parts) == Clean(parts)
    decreases |parts|
  {
    if parts != [] {
      var head := [parts[0]];
      var rest := parts[1..];
      assert parts == head + rest;
      PlainPartsNames(rest);
      SingerNamesAppend(head, rest);
      SingerNamesOne(parts[0]);
      PlainPartNames(parts[0]);
      CleanAppend(head, rest);
    }
  }

  /** The performer credit "GroupX[Mem1, Mem2]" expands to the unit and its two members. */
  lemma GroupedCreditExample()
    ensures SingerNames(RawPieces("GroupX[Mem1, Mem2]")) == ["GroupX", "Mem1", "Mem2"]
  {
    var s := "GroupX[Mem1, Mem2]";
    CreditIsOnePart();
    CreditPartNames();
    SingerNamesOne(s);
  }

  lemma CreditPartNames()
    ensures PartNames("GroupX[Mem1, Mem2]") == ["GroupX", "Mem1", "Mem2"]
  {
    assert "GroupX[Mem1, Mem2]" == "GroupX" + "[" + ("Mem1" + ", " + "Mem2") + "]";
    GroupOfTwo("GroupX", "Mem1", "Mem2");
  }

  /** A unit credited with two members. */
  lemma GroupOfTwo(u: string, x: string, y: string)
    requires u != [] && IsStripped(u) && '[' !in u && '\n' !in u
    requires x != [] && IsStripped(x) && ',' !in x && '\n' !in x
    requires y != [] && IsStripped(y) && ',' !in y && '\n' !in y
    ensures PartNames(u + "[" + (x + ", " + y) + "]") == [u, x, y]
  {
    var b := x + ", " + y;
    assert '\n' !in b;
    GroupedPartNames(u, b);
    TwoMembers(x, y);
  }

  lemma CreditIsOnePart()
    ensures RawPieces("GroupX[Mem1, Mem2]") == ["GroupX[Mem1, Mem2]"]
  {
    var s := "GroupX[Mem1, Mem2]";
    assert s[..11] == "GroupX[Mem1" && s[12..] == " Mem2]";
    CommaFreeNoSplit(s, 0, 11);
    CommaFreeNoSplit(s, 12, |s|);
    CloseAheadMeaning(s[12..]);
    assert s[12..][5] == ']' && s[12..][..5] == " Mem2";
    RawPiecesWhole(s);
  }

  /** A body of two stripped members separated by a comma and a space. */
  lemma TwoMembers(x: string, y: string)
    requires x != [] && IsStripped(x) && ',' !in x
    requires y != [] && IsStripped(y) && ',' !in y
    ensures Clean(SplitOn(x + ", " + y, ',')) == [x, y]
  {
    TwoMembersSplit(x, y);
    TwoMembersClean(x, y);
  }

  lemma TwoMembersSplit(x: string, y: string)
    requires ',' !in x && ',' !in y
    ensures SplitOn(x + ", " + y, ',') == [x, " " + y]
  {
    var ps := [x, " " + y];
    assert JoinWith(ps[1..], ',') == " " + y;
    assert JoinWith(ps, ',') == x + ", " + y;
    assert ',' !in " " + y;
    SplitOnJoin(ps, ',');
  }

  lemma TwoMembersClean(x: string, y: string)
    requires x != [] && IsStripped(x)
    requires y != [] && IsStripped(y)
    ensures Clean([x, " " + y]) == [x, y]
  {
    var ps := [x, " " + y];
    StripOfStripped(x);
    assert AllSpace(" ");
    StripIgnoresLeadingSpace(" ", y);
    StripOfStripped(y);
    assert ps[1..][1..] == [];
  }
}
