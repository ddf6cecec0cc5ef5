/** `_safe_split`: split on `,\s*(?![^[]*\])`, strip every piece, drop empty ones.
    A comma is a split point unless the first bracket character after it is `]`. */
module ArraySplit {
  import opened Strings

  /** The lookahead `(?=[^[]*\])` at the start of `t`: the first `[` or `]` in `t` is `]`. */
  predicate CloseAhead(t: string) {
    if t == [] then false
    else if t[0] == '[' then false
    else if t[0] == ']' then true
    else CloseAhead(t[1..])
  }

  /** The lookahead read as the regex says: some `]` with no `[` before it. */
  lemma {:induction false} CloseAheadMeaning(t: string)
    ensures CloseAhead(t) <==> exists q :: 0 <= q < |t| && t[q] == ']' && '[' !in t[..q]
  {
    if t == [] {
    } else if t[0] == '[' {
      forall q | 0 <= q < |t| && t[q] == ']' ensures '[' in t[..q] {
        assert t[..q][0] == '[';
      }
    } else if t[0] == ']' {
      assert t[0] == ']' && '[' !in t[..0];
    } else {
      CloseAheadMeaning(t[1..]);
      if CloseAhead(t) {
        var q :| 0 <= q < |t| - 1 && t[1..][q] == ']' && '[' !in t[1..][..q];
        assert t[..q + 1] == [t[0]] + t[1..][..q];
        assert t[q + 1] == ']' && '[' !in t[..q + 1];
      }
      if q :| 0 <= q < |t| && t[q] == ']' && '[' !in t[..q] {
        assert q > 0;
        assert t[..q] == [t[0]] + t[1..][..q - 1];
        assert t[1..][q - 1] == ']' && '[' !in t[1..][..q - 1];
      }
    }
  }

  /** The separator regex matches at position `i`. */
  predicate IsSplitComma(s: string, i: nat)
    requires i < |s|
  {
    s[i] == ',' && !CloseAhead(s[i + 1..])
  }

  /** Left-to-right scan: `start` is where the current piece began, `i` the
      position examined next. */
  function Scan(s: string, start: nat, i: nat): (r: seq<string>)
    requires start <= i <= |s|
    decreases |s| - i
  {
    if i == |s| then [s[start..]]
    else if IsSplitComma(s, i) then [s[start..i]] + Scan(s, i + 1, i + 1)
    else Scan(s, start, i + 1)
  }

  /** `ARRAY_SPLIT_PATTERN.split(s)`, with each separator's trailing whitespace
      left on the piece after it (every caller strips the pieces). */
  function RawPieces(s: string): (r: seq<string>)
    ensures |r| >= 1
  {
    ScanJoin(s, 0, 0);
    Scan(s, 0, 0)
  }

  /** `_safe_split`. */
  function SafeSplit(s: string): (r: seq<string>)
    ensures |r| <= |RawPieces(s)|
    ensures forall k :: 0 <= k < |r| ==> r[k] != [] && IsStripped(r[k])
  {
    Clean(RawPieces(s))
  }

  /** `_safe_split` returns exactly the non-blank regex pieces, stripped. */
  lemma SafeSplitMembers(s: string)
    ensures forall x :: x in SafeSplit(s) <==> x != [] && exists p :: p in RawPieces(s) && Strip(p) == x
  {
    CleanMembers(RawPieces(s));
  }

  /** Nothing is lost: the pieces joined with commas give back the input. */
  lemma RawPiecesJoin(s: string)
    ensures JoinWith(RawPieces(s), ',') == s
  {
    ScanJoin(s, 0, 0);
  }

  lemma {:induction false} ScanJoin(s: string, start: nat, i: nat)
    requires start <= i <= |s|
    ensures |Scan(s, start, i)| >= 1
    ensures JoinWith(Scan(s, start, i), ',') == s[start..]
    decreases |s| - i
  {
    if i == |s| {
    } else if IsSplitComma(s, i) {
      ScanJoin(s, i + 1, i + 1);
      assert s[start..] == s[start..i] + [','] + s[i + 1..];
    } else {
      ScanJoin(s, start, i + 1);
    }
  }

  /** Whether a comma splits depends only on what follows it. */
  lemma SplitCommaShift(s: string, d: nat, m: nat)
    requires d <= m < |s|
    ensures IsSplitComma(s, m) == IsSplitComma(s[d..], m - d)
  {
    assert s[d..][m - d + 1..] == s[m + 1..];
  }

  lemma {:induction false} ScanShift(s: string, d: nat, start: nat, i: nat)
    requires d <= start <= i <= |s|
    ensures Scan(s, start, i) == Scan(s[d..], start - d, i - d)
    decreases |s| - i
  {
    var t := s[d..];
    if i == |s| {
      assert t[start - d..] == s[start..];
    } else {
      SplitCommaShift(s, d, i);
      if IsSplitComma(s, i) {
        assert t[start - d..i - d] == s[start..i];
        ScanShift(s, d, i + 1, i + 1);
      } else {
        ScanShift(s, d, start, i + 1);
      }
    }
  }

  lemma {:induction false} ScanNoSplit(s: string, start: nat, i: nat)
    requires start <= i <= |s|
    requires forall m :: i <= m < |s| ==> !IsSplitComma(s, m)
    ensures Scan(s, start, i) == [s[start..]]
    decreases |s| - i
  {
    if i < |s| {
      ScanNoSplit(s, start, i + 1);
    }
  }

  lemma {:induction false} ScanUpTo(s: string, start: nat, j: nat, i: nat)
    requires start <= j <= i < |s|
    requires IsSplitComma(s, i)
    requires forall m :: j <= m < i ==> !IsSplitComma(s, m)
    ensures Scan(s, start, j) == [s[start..i]] + Scan(s, i + 1, i + 1)
    decreases i - j
  {
    if j < i {
      ScanUpTo(s, start, j + 1, i);
    }
  }

  /** A string with no split comma is one piece. */
  lemma RawPiecesWhole(s: string)
    requires forall m :: 0 <= m < |s| ==> !IsSplitComma(s, m)
    ensures RawPieces(s) == [s]
  {
    ScanNoSplit(s, 0, 0);
  }

  /** Otherwise the first piece ends at the first split comma and the rest is
      split the same way: a comma splits exactly when no `]` comes before the
      next `[` after it. */
  lemma RawPiecesFirstSplit(s: string, i: nat)
    requires i < |s| && IsSplitComma(s, i)
    requires forall m :: 0 <= m < i ==> !IsSplitComma(s, m)
    ensures RawPieces(s) == [s[..i]] + RawPieces(s[i + 1..])
  {
    ScanUpTo(s, 0, 0, i);
    ScanShift(s, i + 1, i + 1, i + 1);
  }

  /** Without brackets the rule degenerates to a plain split at every comma. */
  lemma {:induction false} UnbracketedSplitsAtEveryComma(s: string)
    requires '[' !in s && ']' !in s
    ensures RawPieces(s) == SplitOn(s, ',')
    decreases |s|
  {
    forall m | 0 <= m < |s| ensures IsSplitComma(s, m) <==> s[m] == ',' {
      NoBracketNoClose(s[m + 1..]);
    }
    if ',' !in s {
      RawPiecesWhole(s);
    } else {
      var i := IndexOf(s, ',');
      RawPiecesFirstSplit(s, i);
      UnbracketedSplitsAtEveryComma(s[i + 1..]);
    }
  }

  lemma {:induction false} OpenBracketFirst(t: string, q: nat)
    requires q < |t| && t[q] == '[' && ']' !in t[..q]
    ensures !CloseAhead(t)
  {
    if q > 0 {
      assert t[1..][..q - 1] == t[1..q];
      OpenBracketFirst(t[1..], q - 1);
    }
  }

  lemma {:induction false} NoBracketNoClose(t: string)
    requires ']' !in t
    ensures !CloseAhead(t)
  {
    if t != [] && t[0] != '[' {
      NoBracketNoClose(t[1..]);
    }
  }

  /** The space `re.split` leaves after a separating comma is removed by the strip. */
  lemma LeadingSpaceStripped(t: string)
    requires IsStripped(t)
    ensures Strip(" " + t) == t
  {
    assert AllSpace(" ");
    StripIgnoresLeadingSpace(" ", t);
    StripOfStripped(t);
  }

  lemma CommaFreeNoSplit(s: string, lo: nat, hi: nat)
    requires lo <= hi <= |s| && ',' !in s[lo..hi]
    ensures forall m :: lo <= m < hi ==> !IsSplitComma(s, m)
  {
    forall m | lo <= m < hi ensures s[m] != ',' {
      assert s[m] == s[lo..hi][m - lo];
    }
  }

  /** A comma inside a bracketed credit does not split it. */
  lemma BracketedCommaKept()
    ensures SafeSplit("佐高陵平[Hifumi, inc.]") == ["佐高陵平[Hifumi, inc.]"]
  {
    var s := "佐高陵平[Hifumi, inc.]";
    BracketedCreditIsOnePiece();
    StripOfStripped(s);
  }

  lemma BracketedCreditIsOnePiece()
    ensures RawPieces("佐高陵平[Hifumi, inc.]") == ["佐高陵平[Hifumi, inc.]"]
  {
    var s := "佐高陵平[Hifumi, inc.]";
    assert s[..11] == "佐高陵平[Hifumi" && s[12..] == " inc.]";
    CommaFreeNoSplit(s, 0, 11);
    CommaFreeNoSplit(s, 12, |s|);
    CloseAheadMeaning(s[12..]);
    assert s[12..][5] == ']' && s[12..][..5] == " inc.";
    RawPiecesWhole(s);
  }

  /** Top-level commas split, the following space is dropped, brackets stay attached. */
  lemma TopLevelCommasSplit()
    ensures SafeSplit("作者A, 作者B[グループ], 作者C") == ["作者A", "作者B[グループ]", "作者C"]
  {
    var ps := ["作者A", " 作者B[グループ]", " 作者C"];
    AuthorPieces();
    AuthorStrips();
    assert Clean(ps[2..]) == ["作者C"];
    assert Clean(ps[1..]) == ["作者B[グループ]", "作者C"];
  }

  lemma AuthorStrips()
    ensures Strip("作者A") == "作者A"
    ensures Strip(" 作者B[グループ]") == "作者B[グループ]"
    ensures Strip(" 作者C") == "作者C"
  {
    StripOfStripped("作者A");
    assert " 作者B[グループ]" == " " + "作者B[グループ]" && " 作者C" == " " + "作者C";
    LeadingSpaceStripped("作者B[グループ]");
    LeadingSpaceStripped("作者C");
  }

  lemma AuthorPieces()
    ensures RawPieces("作者A, 作者B[グループ], 作者C") == ["作者A", " 作者B[グループ]", " 作者C"]
  {
    var s := "作者A, 作者B[グループ], 作者C";
    OpenBracketFirst(s[4..], 4);
    assert IsSplitComma(s, 3);
    assert s[..3] == "作者A";
    CommaFreeNoSplit(s, 0, 3);
    RawPiecesFirstSplit(s, 3);
    assert s[..3] == "作者A" && s[4..] == " 作者B[グループ], 作者C";
    SecondAuthorPieces();
  }

  lemma SecondAuthorPieces()
    ensures RawPieces(" 作者B[グループ], 作者C") == [" 作者B[グループ]", " 作者C"]
  {
    var t := " 作者B[グループ], 作者C";
    NoBracketNoClose(t[11..]);
    assert IsSplitComma(t, 10);
    assert t[..10] == " 作者B[グループ]";
    CommaFreeNoSplit(t, 0, 10);
    RawPiecesFirstSplit(t, 10);
    assert t[..10] == " 作者B[グループ]" && t[11..] == " 作者C";
    RawPiecesWhole(" 作者C");
  }

  /** A comma followed, before any `[`, by a `]` is not a separator. */
  lemma ClosedBracketKeepsComma()
    ensures SafeSplit("A[1,2], B") == ["A[1,2]", "B"]
  {
    var s := "A[1,2], B";
    assert !IsSplitComma(s, 3);
    assert IsSplitComma(s, 6);
    forall m | 0 <= m < 6 ensures !IsSplitComma(s, m) { }
    RawPiecesFirstSplit(s, 6);
    assert s[..6] == "A[1,2]" && s[7..] == " B";
    RawPiecesWhole(" B");
    StripOfStripped("A[1,2]");
    assert " B" == " " + "B";
    LeadingSpaceStripped("B");
  }

  /** A comma with a `]` ahead of it and no `[` in between does not split, even when
      that `]` closes nothing. */
  lemma UnmatchedCloseAheadKeepsComma()
    ensures RawPieces("a, b]") == ["a, b]"]
  {
    var s := "a, b]";
    assert !IsSplitComma(s, 1);
    forall m | 0 <= m < |s| ensures !IsSplitComma(s, m) { }
    RawPiecesWhole(s);
  }

  /** A comma after an unmatched `]`, with none ahead of it, does split. */
  lemma UnmatchedCloseBehindSplits()
    ensures RawPieces("a], b") == ["a]", " b"]
  {
    var s := "a], b";
    assert IsSplitComma(s, 2);
    forall m | 0 <= m < 2 ensures !IsSplitComma(s, m) { }
    RawPiecesFirstSplit(s, 2);
    assert s[..2] == "a]" && s[3..] == " b";
    RawPiecesWhole(" b");
  }
}
