/** Splitting and joining argument vectors (src/util/argv.c). A NULL vector is the empty one; strings hold no
    terminator, which stands at their end. */
module Argv {
  import opened Wrappers

  type Strings = seq<string>

  const ARGSIZE := 128

  // ------------------------------------------------------------------------
  // Reference definitions
  // ------------------------------------------------------------------------

  /** The pieces of `s` between delimiters; a string without delimiter is one piece. */
  function Pieces(s: string, delimiter: char): (r: Strings)
    ensures r != []
  {
    if s == [] then [""]
    else if s[0] == delimiter then [""] + Pieces(s[1..], delimiter)
    else
      var rest := Pieces(s[1..], delimiter);
      [[s[0]] + rest[0]] + rest[1..]
  }

  /** A piece after a last trailing delimiter does not count. */
  function WithoutLastEmpty(v: Strings): Strings {
    if v != [] && v[|v| - 1] == "" then v[..|v| - 1] else v
  }

  function NonEmpty(v: Strings): (r: Strings)
    ensures forall i :: 0 <= i < |r| ==> r[i] != ""
  {
    if v == [] then []
    else if v[0] == "" then NonEmpty(v[1..])
    else [v[0]] + NonEmpty(v[1..])
  }

  function SplitWithEmpty(s: string, delimiter: char): Strings {
    WithoutLastEmpty(Pieces(s, delimiter))
  }

  function Split(s: string, delimiter: char): Strings {
    NonEmpty(SplitWithEmpty(s, delimiter))
  }

  function Joined(v: Strings, delimiter: char): string {
    if v == [] then "" else if |v| == 1 then v[0] else v[0] + [delimiter] + Joined(v[1..], delimiter)
  }

  /** The string less one trailing delimiter, if it has one. */
  function DropTrailing(s: string, delimiter: char): string {
    if s != [] && s[|s| - 1] == delimiter then s[..|s| - 1] else s
  }

  // ------------------------------------------------------------------------
  // Laws
  // ------------------------------------------------------------------------

  lemma {:induction false} JoinPieces(s: string, delimiter: char)
    ensures Joined(Pieces(s, delimiter), delimiter) == s
  {
    if s != [] {
      JoinPieces(s[1..], delimiter);
      var rest := Pieces(s[1..], delimiter);
      if s[0] == delimiter {
        assert Pieces(s, delimiter)[1..] == rest;
        assert Joined(Pieces(s, delimiter), delimiter) == "" + [delimiter] + Joined(rest, delimiter);
      } else {
        var v := [[s[0]] + rest[0]] + rest[1..];
        assert v[1..] == rest[1..];
        assert Joined(v, delimiter) == [s[0]] + Joined(rest, delimiter);
      }
    }
  }

  /** Dropping the last, empty piece drops one trailing delimiter. */
  lemma {:induction false} JoinedWithoutLast(v: Strings, delimiter: char)
    requires |v| > 1 && v[|v| - 1] == ""
    ensures Joined(v, delimiter) == Joined(v[..|v| - 1], delimiter) + [delimiter]
  {
    if |v| == 2 {
      assert Joined(v[1..], delimiter) == "";
    } else {
      JoinedWithoutLast(v[1..], delimiter);
      assert v[1..][..|v| - 2] == v[..|v| - 1][1..];
    }
  }

  lemma {:induction false} LastPiece(s: string, delimiter: char)
    ensures var v := Pieces(s, delimiter); v[|v| - 1] == "" <==> s == [] || s[|s| - 1] == delimiter
    ensures |Pieces(s, delimiter)| == 1 <==> delimiter !in s
  {
    if s != [] {
      LastPiece(s[1..], delimiter);
    }
  }

  /** Joining what split-with-empty gives returns the string, less one trailing delimiter if it had one. */
  lemma JoinSplitWithEmpty(s: string, delimiter: char)
    ensures Joined(SplitWithEmpty(s, delimiter), delimiter) == DropTrailing(s, delimiter)
  {
    var v := Pieces(s, delimiter);
    JoinPieces(s, delimiter);
    LastPiece(s, delimiter);
    if v[|v| - 1] == "" && |v| > 1 {
      JoinedWithoutLast(v, delimiter);
    }
  }

  ghost predicate Clean(v: Strings, delimiter: char) {
    forall i :: 0 <= i < |v| ==> v[i] != "" && delimiter !in v[i]
  }

  lemma {:induction false} PiecesOfClean(a: string, delimiter: char, rest: string)
    requires delimiter !in a
    ensures Pieces(a, delimiter) == [a]
    ensures Pieces(a + [delimiter] + rest, delimiter) == [a] + Pieces(rest, delimiter)
  {
    if a == [] {
      assert a + [delimiter] + rest == [delimiter] + rest;
    } else {
      PiecesOfClean(a[1..], delimiter, rest);
      assert (a + [delimiter] + rest)[1..] == a[1..] + [delimiter] + rest;
      assert a == [a[0]] + a[1..];
    }
  }

  ghost predicate NoDelimiter(v: Strings, delimiter: char) {
    forall i :: 0 <= i < |v| ==> delimiter !in v[i]
  }

  lemma {:induction false} PiecesOfJoined(v: Strings, delimiter: char)
    requires v != [] && NoDelimiter(v, delimiter)
    ensures Pieces(Joined(v, delimiter), delimiter) == v
  {
    PiecesOfClean(v[0], delimiter, Joined(v[1..], delimiter));
    if |v| > 1 {
      PiecesOfJoined(v[1..], delimiter);
    }
    assert v == [v[0]] + v[1..];
  }

  lemma {:induction false} NonEmptyOfClean(v: Strings)
    requires forall i :: 0 <= i < |v| ==> v[i] != ""
    ensures NonEmpty(v) == v
  {
    if v != [] {
      NonEmptyOfClean(v[1..]);
      assert v == [v[0]] + v[1..];
    }
  }

  lemma {:induction false} PiecesHaveNoDelimiter(s: string, delimiter: char)
    ensures forall i :: 0 <= i < |Pieces(s, delimiter)| ==> delimiter !in Pieces(s, delimiter)[i]
  {
    if s != [] { PiecesHaveNoDelimiter(s[1..], delimiter); }
  }

  lemma {:induction false} NonEmptyPicks(v: Strings)
    ensures forall x :: x in NonEmpty(v) ==> x in v
  {
    if v != [] { NonEmptyPicks(v[1..]); }
  }

  /** What splitting gives is always clean. */
  lemma SplitIsClean(s: string, delimiter: char)
    ensures Clean(Split(s, delimiter), delimiter)
  {
    PiecesHaveNoDelimiter(s, delimiter);
    var v, r := SplitWithEmpty(s, delimiter), Split(s, delimiter);
    NonEmptyPicks(v);
    forall i | 0 <= i < |r| ensures r[i] != "" && delimiter !in r[i] {
      assert r[i] in v && r[i] in Pieces(s, delimiter);
    }
  }

  /** Splitting undoes joining exactly for vectors of non-empty strings without the delimiter. */
  lemma SplitJoined(v: Strings, delimiter: char)
    ensures Split(Joined(v, delimiter), delimiter) == v <==> Clean(v, delimiter)
    ensures Clean(v, delimiter) ==> SplitWithEmpty(Joined(v, delimiter), delimiter) == v
  {
    SplitIsClean(Joined(v, delimiter), delimiter);
    if v != [] && Clean(v, delimiter) {
      PiecesOfJoined(v, delimiter);
      NonEmptyOfClean(v);
    }
  }

  /** What split-with-empty gives is the one vector without the delimiter that joins to the string less one trailing
      delimiter, and has no strings only for the empty string. */
  lemma SplitWithEmptyExactly(s: string, delimiter: char, v: Strings)
    ensures v == SplitWithEmpty(s, delimiter) <==>
      && NoDelimiter(v, delimiter) && Joined(v, delimiter) == DropTrailing(s, delimiter) && (v == [] <==> s == "")
  {
    var u := SplitWithEmpty(s, delimiter);
    PiecesHaveNoDelimiter(s, delimiter);
    JoinSplitWithEmpty(s, delimiter);
    LastPiece(s, delimiter);
    assert u == [] <==> s == "";
    if v != [] && NoDelimiter(v, delimiter) { PiecesOfJoined(v, delimiter); }
    if u != [] { PiecesOfJoined(u, delimiter); }
  }

  lemma {:induction false} PiecesAppend(a: string, delimiter: char, b: string)
    ensures Pieces(a + [delimiter] + b, delimiter) == Pieces(a, delimiter) + Pieces(b, delimiter)
  {
    if a == [] {
      assert a + [delimiter] + b == [delimiter] + b;
    } else {
      PiecesAppend(a[1..], delimiter, b);
      assert (a + [delimiter] + b)[1..] == a[1..] + [delimiter] + b;
      PushFront(a[0], Pieces(a[1..], delimiter), Pieces(b, delimiter));
    }
  }

  lemma PushFront(c: char, v: Strings, w: Strings)
    requires v != []
    ensures [""] + (v + w) == ([""] + v) + w
    ensures [[c] + (v + w)[0]] + (v + w)[1..] == ([[c] + v[0]] + v[1..]) + w
  {
  }

  lemma {:induction false} NonEmptyAppend(v: Strings, w: Strings)
    ensures NonEmpty(v + w) == NonEmpty(v) + NonEmpty(w)
  {
    if v == [] {
      assert v + w == w;
    } else {
      NonEmptyAppend(v[1..], w);
      assert (v + w)[1..] == v[1..] + w;
    }
  }

  lemma SplitIsNonEmptyPieces(s: string, delimiter: char)
    ensures Split(s, delimiter) == NonEmpty(Pieces(s, delimiter))
  {
    var v := Pieces(s, delimiter);
    var n := |v| - 1;
    assert v == v[..n] + [v[n]];
    NonEmptyAppend(v[..n], [v[n]]);
  }

  /** Splitting two strings put together with the delimiter gives the strings of the one, then of the other. */
  lemma SplitAppend(a: string, delimiter: char, b: string)
    ensures Split(a + [delimiter] + b, delimiter) == Split(a, delimiter) + Split(b, delimiter)
  {
    PiecesAppend(a, delimiter, b);
    NonEmptyAppend(Pieces(a, delimiter), Pieces(b, delimiter));
    SplitIsNonEmptyPieces(a + [delimiter] + b, delimiter);
    SplitIsNonEmptyPieces(a, delimiter);
    SplitIsNonEmptyPieces(b, delimiter);
  }

  // ------------------------------------------------------------------------
  // The code
  // ------------------------------------------------------------------------

  /** `ww_argv_split_inter` from the remaining string: what the loop still has to append. */
  function SplitInter(s: string, delimiter: char, includeEmpty: bool): Strings {
    if includeEmpty then SplitWithEmpty(s, delimiter) else Split(s, delimiter)
  }

  lemma SplitStep(s: string, delimiter: char, n: nat, includeEmpty: bool)
    requires s != [] && n <= |s| && delimiter !in s[..n] && (n < |s| ==> s[n] == delimiter)
    ensures n == |s| ==> SplitInter(s, delimiter, includeEmpty) == [s]
    ensures n < |s| ==>
      var rest := SplitInter(s[n + 1..], delimiter, includeEmpty);
      SplitInter(s, delimiter, includeEmpty) == if n == 0 && !includeEmpty then rest else [s[..n]] + rest
  {
    if n == |s| {
      assert s[..n] == s;
      PiecesOfClean(s, delimiter, []);
      NonEmptyOfClean([s]);
    } else {
      var tail := s[n + 1..];
      PiecesOfClean(s[..n], delimiter, tail);
      assert s == s[..n] + [delimiter] + tail;
      var v, w := Pieces(s, delimiter), Pieces(tail, delimiter);
      assert v == [s[..n]] + w;
      assert WithoutLastEmpty(v) == [s[..n]] + WithoutLastEmpty(w);
      assert WithoutLastEmpty(v)[1..] == WithoutLastEmpty(w);
    }
  }

  /** Length of the piece up to the next delimiter or the end. */
  method ScanPiece(s: string, delimiter: char) returns (arglen: nat)
    ensures arglen <= |s| && delimiter !in s[..arglen] && (arglen < |s| ==> s[arglen] == delimiter)
  {
    arglen := 0;
    while arglen < |s| && s[arglen] != delimiter
      invariant arglen <= |s| && delimiter !in s[..arglen]
    {
      arglen := arglen + 1;
    }
  }

  /** One turn of the splitting loop: what it appends, and the string it goes on with. */
  method SplitOne(s: string, delimiter: char, includeEmpty: bool) returns (piece: Strings, rest: string)
    requires s != []
    ensures |rest| < |s|
    ensures SplitInter(s, delimiter, includeEmpty) == piece + SplitInter(rest, delimiter, includeEmpty)
  {
    var arglen := ScanPiece(s, delimiter);
    SplitStep(s, delimiter, arglen, includeEmpty);
    if arglen == 0 {
      piece := if includeEmpty then [""] else [];
      assert s[..0] == "";
    } else if arglen == |s| {
      return [s], [];
    } else if arglen > ARGSIZE - 1 {
      piece := [s[..arglen]];
    } else {
      // The piece and its terminator fit into the buffer.
      assert arglen + 1 <= ARGSIZE;
      piece := [s[..arglen]];
    }
    rest := s[arglen + 1..];
  }

  /** `ww_argv_split` and `ww_argv_split_with_empty`. */
  method SplitString(source: string, delimiter: char, includeEmpty: bool) returns (argv: Strings)
    ensures argv == if includeEmpty then SplitWithEmpty(source, delimiter) else Split(source, delimiter)
  {
    argv := [];
    var s := source;
    ghost var all, more := SplitInter(source, delimiter, includeEmpty), SplitInter(source, delimiter, includeEmpty);
    while s != []
      invariant argv + more == all && more == SplitInter(s, delimiter, includeEmpty)
      decreases |s|
    {
      var piece, rest := SplitOne(s, delimiter, includeEmpty);
      more := SplitInter(rest, delimiter, includeEmpty);
      argv, s := argv + piece, rest;
    }
    assert more == [];
  }

  function TotalLength(v: Strings): nat {
    if v == [] then 0 else |v[0]| + 1 + TotalLength(v[1..])
  }

  lemma {:induction false} JoinedLength(v: Strings, delimiter: char)
    requires v != []
    ensures |Joined(v, delimiter)| == TotalLength(v) - 1
  {
    if |v| > 1 { JoinedLength(v[1..], delimiter); }
  }

  /** `ww_argv_join`: fill the string character by character, moving on to the next argument at the end of one. */
  method Join(argv: Strings, delimiter: char) returns (str: string)
    ensures str == Joined(argv, delimiter)
  {
    if argv == [] {
      return "";
    }
    var strLen := 0;
    var p := 0;
    while p < |argv|
      invariant p <= |argv| && strLen + TotalLength(argv[p..]) == TotalLength(argv)
    {
      assert argv[p..][1..] == argv[p + 1..];
      strLen := strLen + |argv[p]| + 1;
      p := p + 1;
    }
    strLen := strLen - 1;
    JoinedLength(argv, delimiter);
    str := [];
    p := 0;
    var pp := argv[0];
    assert [pp] + argv[1..] == argv;
    while |str| < strLen
      invariant p < |argv| && |str| <= strLen == |Joined(argv, delimiter)|
      invariant str + Joined([pp] + argv[p + 1..], delimiter) == Joined(argv, delimiter)
      decreases strLen - |str|
    {
      if pp == [] {
        var rest := [pp] + argv[p + 1..];
        assert rest[1..] == argv[p + 1..];
        assert argv[p + 1..] == [argv[p + 1]] + argv[p + 2..];
        str := str + [delimiter];
        p := p + 1;
        pp := argv[p];
      } else {
        PeelOne(pp, argv[p + 1..], delimiter);
        str := str + [pp[0]];
        pp := pp[1..];
      }
    }
  }

  lemma PeelOne(pp: string, rest: Strings, delimiter: char)
    requires pp != []
    ensures Joined([pp] + rest, delimiter) == [pp[0]] + Joined([pp[1..]] + rest, delimiter)
  {
    assert ([pp] + rest)[1..] == rest && ([pp[1..]] + rest)[1..] == rest;
  }

  // ------------------------------------------------------------------------
  // Deleting and inserting in place
  // ------------------------------------------------------------------------

  /** `a` holds the strings of `v`, ended by NULL. */
  ghost predicate Holds(a: array<Option<string>>, v: Strings)
    reads a
  {
    |v| < a.Length && a[|v|].None? && forall i :: 0 <= i < |v| ==> a[i] == Some(v[i])
  }

  /** `ww_argv_count` */
  method Count(a: array<Option<string>>, ghost v: Strings) returns (n: nat)
    requires Holds(a, v)
    ensures n == |v|
  {
    n := 0;
    while a[n].Some?
      invariant n <= |v|
      decreases |v| - n
    {
      n := n + 1;
    }
  }

  /** `realloc` to another size: the common part keeps its contents. */
  method Realloc(a: array<Option<string>>, size: nat) returns (r: array<Option<string>>)
    ensures fresh(r) && r.Length == size
    ensures forall i :: 0 <= i < size && i < a.Length ==> r[i] == a[i]
  {
    r := new Option<string>[size](_ => None);
    forall i | 0 <= i < size && i < a.Length {
      r[i] := a[i];
    }
  }

  /** `v` without the strings from `start` on, `num` of them as far as there are that many. */
  function Deleted(v: Strings, start: nat, num: nat): Strings
    requires start <= |v|
  {
    v[..start] + (if start + num <= |v| then v[start + num..] else [])
  }

  /** `ww_argv_delete`. It takes `num` off the count even where fewer strings were there to delete. A NULL
      vector is left alone. */
  method Delete(argc: int, argv: array?<Option<string>>, start: int, num: int, ghost v: Strings)
    returns (ok: bool, argc': int, argv': array?<Option<string>>)
    requires argv != null ==> Holds(argv, v)
    modifies argv
    ensures argv == null ==> ok && argv' == null && argc' == argc
    ensures argv != null ==> argv' != null && (ok <==> num == 0 || |v| < start || (0 <= start && 0 <= num))
    ensures argv != null ==> if ok && num != 0 && start <= |v|
      then Holds(argv', Deleted(v, start, num)) && argc' == argc - num
      else Holds(argv', v) && argc' == argc
    ensures argv != null && ok && num != 0 && start <= |v| && argc == |v| ==>
      (argc' == |Deleted(v, start, num)| <==> start + num <= |v|)
  {
    if argv == null || num == 0 {
      return true, argc, argv;
    }
    var count := Count(argv, v);
    if start > count {
      return true, argc, argv;
    } else if start < 0 || num < 0 {
      return false, argc, argv;
    }
    var suffixCount := count - (start + num);
    if suffixCount < 0 {
      suffixCount := 0;
    }
    var i := start;
    while i < start + suffixCount
      invariant start <= i <= start + suffixCount
      invariant forall k :: 0 <= k < start ==> argv[k] == Some(v[k])
      invariant forall k :: start <= k < i ==> argv[k] == Some(v[k + num])
      invariant forall k :: i <= k < |v| ==> argv[k] == Some(v[k])
    {
      argv[i] := argv[i + num];
      i := i + 1;
    }
    argv[i] := None;
    var tmp := Realloc(argv, i + 1);
    return true, argc - num, tmp;
  }

  /** Deleting two strings from a vector of one leaves no string and the count -1. */
  method DeletePastEnd() returns (argc: int, argv: array?<Option<string>>)
    ensures argc == -1 && argv != null && Holds(argv, [])
  {
    var one := new Option<string>[2](_ => None);
    one[0] := Some("a");
    var ok;
    ok, argc, argv := Delete(1, one, 0, 2, ["a"]);
    assert Deleted(["a"], 0, 2) == [];
  }

  /** `v` with the strings of `source` put in before `start`; beyond the end they are appended. */
  function Inserted(v: Strings, start: nat, source: Strings): Strings {
    var k := if start <= |v| then start else |v|;
    v[..k] + source + v[k..]
  }

  /** `ww_argv_insert`. A NULL target is refused. */
  method Insert(argv: array?<Option<string>>, start: int, source: Strings, ghost v: Strings)
    returns (ok: bool, argv': array?<Option<string>>)
    requires argv != null ==> Holds(argv, v)
    ensures ok <==> argv != null && 0 <= start
    ensures argv == null <==> argv' == null
    ensures argv != null ==> Holds(argv', if ok then Inserted(v, start, source) else v)
  {
    if argv == null || start < 0 {
      return false, argv;
    }
    var targetCount := Count(argv, v);
    var grown;
    if start > targetCount {
      grown := AppendAll(argv, source, v);
      assert Inserted(v, start, source) == v + source;
    } else {
      grown := Realloc(argv, targetCount + |source| + 1);
      OpenGap(grown, start, |source|, v);
      FillGap(grown, start, source, v);
    }
    return true, grown;
  }

  /** Append the strings one by one. */
  method AppendAll(argv: array<Option<string>>, source: Strings, ghost v: Strings)
    returns (argv': array<Option<string>>)
    requires Holds(argv, v)
    ensures Holds(argv', v + source)
  {
    argv' := argv;
    var n := Count(argv, v);
    assert v + source[..0] == v;
    for i := 0 to |source|
      invariant Holds(argv', v + source[..i])
      modifies {}
    {
      assert v + source[..i + 1] == v + source[..i] + [source[i]];
      var next := Realloc(argv', n + i + 2);
      next[n + i] := Some(source[i]);
      next[n + i + 1] := None;
      argv' := next;
    }
    assert source[..|source|] == source;
  }

  /** Move the strings from `start` on up by `n` places, last one first. */
  method OpenGap(a: array<Option<string>>, start: nat, n: nat, ghost v: Strings)
    requires start <= |v| && a.Length == |v| + n + 1
    requires forall i :: 0 <= i < |v| ==> a[i] == Some(v[i])
    modifies a
    ensures a[|v| + n].None?
    ensures forall i :: 0 <= i < start ==> a[i] == Some(v[i])
    ensures forall i :: start + n <= i < |v| + n ==> a[i] == Some(v[i - n])
  {
    var i := a.Length - 1 - n - start;
    while i > 0
      invariant 0 <= i <= |v| - start
      invariant forall k :: 0 <= k < start + i ==> a[k] == Some(v[k])
      invariant forall k :: start + i + n <= k < |v| + n ==> a[k] == Some(v[k - n])
    {
      i := i - 1;
      a[start + n + i] := a[start + i];
    }
    a[a.Length - 1] := None;
  }

  /** Copy the source strings into the gap. */
  method FillGap(a: array<Option<string>>, start: nat, source: Strings, ghost v: Strings)
    requires start <= |v| && a.Length == |v| + |source| + 1
    requires a[|v| + |source|].None?
    requires forall i :: 0 <= i < start ==> a[i] == Some(v[i])
    requires forall i :: start + |source| <= i < |v| + |source| ==> a[i] == Some(v[i - |source|])
    modifies a
    ensures Holds(a, Inserted(v, start, source))
  {
    forall i | 0 <= i < |source| {
      a[start + i] := Some(source[i]);
    }
  }

  /** Where every string is after an insertion: those before the position stay, the new ones follow, and the others
      come behind them; beyond the end the position is the end. */
  lemma InsertedExactly(v: Strings, start: nat, source: Strings, r: Strings)
    ensures r == Inserted(v, start, source) <==>
      && |r| == |v| + |source|
      && (forall i :: 0 <= i < |v| && i < start ==> r[i] == v[i])
      && (forall i :: 0 <= i < |source| ==> r[(if start < |v| then start else |v|) + i] == source[i])
      && (forall i :: start <= i < |v| ==> r[i + |source|] == v[i])
  {
  }

  /** And after a deletion: those before the position stay, and those behind the deleted ones follow. */
  lemma DeletedExactly(v: Strings, start: nat, num: nat, r: Strings)
    requires start <= |v|
    ensures r == Deleted(v, start, num) <==>
      && |r| == (if start + num <= |v| then |v| - num else start)
      && (forall i :: 0 <= i < start ==> r[i] == v[i])
      && (forall i :: start + num <= i < |v| ==> r[i - num] == v[i])
  {
  }

  /** Deleting what was inserted gives the vector back. */
  lemma DeleteInserted(v: Strings, start: nat, source: Strings)
    requires start <= |v|
    ensures Deleted(Inserted(v, start, source), start, |source|) == v
  {
    assert Inserted(v, start, source)[..start] == v[..start];
    assert Inserted(v, start, source)[start + |source|..] == v[start..];
  }
}
