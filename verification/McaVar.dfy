/** Parameter files and the initial value of a variable (src/mca/base/mca_base_parse_paramfile.c and
    src/mca/base/mca_base_var.c), for a string variable that is no synonym. */
module McaVar {
  import opened Wrappers
  import Argv
  import Runs

  /** A value as the sources give it: a name set without a value has NULL. */
  type Value = Option<string>

  /** One "name = value" of a parameter file, and one node of a list of file values. */
  datatype Assignment = Assignment(name: string, value: Value)

  // ------------------------------------------------------------------------
  // Lists of file values
  // ------------------------------------------------------------------------

  /** The first entry whose name is one of the two. */
  function Find(list: seq<Assignment>, name1: string, name2: string): Option<Assignment> {
    if list == [] then None
    else if list[0].name == name1 || list[0].name == name2 then Some(list[0])
    else Find(list[1..], name1, name2)
  }

  /** Replace the value of the name's entry, or append an entry. */
  function Saved(list: seq<Assignment>, a: Assignment): (r: seq<Assignment>) {
    if list == [] then [a]
    else if list[0].name == a.name then [a] + list[1..]
    else [list[0]] + Saved(list[1..], a)
  }

  function SavedAll(list: seq<Assignment>, all: seq<Assignment>): seq<Assignment>
    decreases |all|
  {
    if all == [] then list else SavedAll(Saved(list, all[0]), all[1..])
  }

  /** No name has two entries. */
  ghost predicate NoDuplicates(list: seq<Assignment>) {
    forall i, j :: 0 <= i < j < |list| ==> list[i].name != list[j].name
  }

  /** The last assignment to `name`. */
  function LastOf(all: seq<Assignment>, name: string): Option<Assignment> {
    if all == [] then None
    else if all[|all| - 1].name == name then Some(all[|all| - 1])
    else LastOf(all[..|all| - 1], name)
  }

  /** It is the one at the least place where one of the two names stands. */
  lemma {:induction false} FindAt(list: seq<Assignment>, name1: string, name2: string, k: nat)
    requires k < |list| && (list[k].name == name1 || list[k].name == name2)
    requires forall i :: 0 <= i < k ==> list[i].name != name1 && list[i].name != name2
    ensures Find(list, name1, name2) == Some(list[k])
  {
    if k > 0 { FindAt(list[1..], name1, name2, k - 1); }
  }

  /** And the last assignment to a name is the one at the greatest place. */
  lemma {:induction false} LastOfAt(all: seq<Assignment>, name: string, k: nat)
    requires k < |all| && all[k].name == name && forall i :: k < i < |all| ==> all[i].name != name
    ensures LastOf(all, name) == Some(all[k])
  {
    if k < |all| - 1 { LastOfAt(all[..|all| - 1], name, k); }
  }

  lemma {:induction false} LastOfNone(all: seq<Assignment>, name: string)
    requires forall i :: 0 <= i < |all| ==> all[i].name != name
    ensures LastOf(all, name) == None
  {
    if all != [] { LastOfNone(all[..|all| - 1], name); }
  }

  lemma {:induction false} FindNone(list: seq<Assignment>, name: string)
    ensures Find(list, name, name).None? <==> forall i :: 0 <= i < |list| ==> list[i].name != name
  {
    if list != [] {
      FindNone(list[1..], name);
      assert forall i :: 0 < i < |list| ==> list[i] == list[1..][i - 1];
    }
  }

  lemma {:induction false} FindMatches(list: seq<Assignment>, name1: string, name2: string)
    ensures var f := Find(list, name1, name2); f.Some? ==> f.value.name == name1 || f.value.name == name2
  {
    if list != [] { FindMatches(list[1..], name1, name2); }
  }

  /** Replacing or appending an assignment: whoever was found first stays first. */
  lemma {:induction false} FindSaved(list: seq<Assignment>, a: Assignment, name1: string, name2: string)
    ensures Find(Saved(list, a), name1, name2) == match Find(list, name1, name2)
      case None => if a.name == name1 || a.name == name2 then Some(a) else None
      case Some(b) => if b.name == a.name then Some(a) else Some(b)
  {
    FindMatches(list, name1, name2);
    if list != [] {
      FindSaved(list[1..], a, name1, name2);
      assert ([list[0]] + Saved(list[1..], a))[1..] == Saved(list[1..], a);
      assert ([a] + list[1..])[1..] == list[1..];
    }
  }

  lemma {:induction false} SavedKeepsNoDuplicates(list: seq<Assignment>, a: Assignment)
    requires NoDuplicates(list)
    ensures NoDuplicates(Saved(list, a))
  {
    if list != [] && list[0].name != a.name {
      var rest := list[1..];
      assert forall i :: 0 <= i < |rest| ==> rest[i] == list[i + 1];
      SavedKeepsNoDuplicates(rest, a);
      FindNone(rest, list[0].name);
      FindSaved(rest, a, list[0].name, list[0].name);
      FindNone(Saved(rest, a), list[0].name);
      var r := Saved(list, a);
      assert forall i :: 0 < i < |r| ==> r[i] == Saved(rest, a)[i - 1];
    }
  }

  lemma {:induction false} LastOfAppend(a: seq<Assignment>, b: seq<Assignment>, name: string)
    ensures LastOf(a + b, name) == if LastOf(b, name).Some? then LastOf(b, name) else LastOf(a, name)
  {
    if b == [] {
      assert a + b == a;
    } else {
      assert (a + b)[..|a + b| - 1] == a + b[..|b| - 1];
      LastOfAppend(a, b[..|b| - 1], name);
    }
  }

  /** After a run of assignments a list has no duplicates, and the entry found for two names is the one
      found before, or the first one assigned, with the last value assigned to its name. */
  lemma {:induction false} FindSavedAll(list: seq<Assignment>, all: seq<Assignment>, name1: string, name2: string)
    requires NoDuplicates(list)
    ensures NoDuplicates(SavedAll(list, all))
    ensures var first := if Find(list, name1, name2).Some? then Find(list, name1, name2) else Find(all, name1, name2);
      Find(SavedAll(list, all), name1, name2) ==
        if first.Some? && LastOf(all, first.value.name).Some? then LastOf(all, first.value.name) else first
    decreases |all|
  {
    if all != [] {
      FindSaved(list, all[0], name1, name2);
      SavedKeepsNoDuplicates(list, all[0]);
      FindSavedAll(Saved(list, all[0]), all[1..], name1, name2);
      assert all == [all[0]] + all[1..];
      forall n: string ensures LastOf([all[0]], n) == if all[0].name == n then Some(all[0]) else None {
        assert [all[0]][..0] == [];
      }
      forall n: string
        ensures LastOf(all, n) == if LastOf(all[1..], n).Some? then LastOf(all[1..], n) else LastOf([all[0]], n)
      {
        LastOfAppend([all[0]], all[1..], n);
      }
      FindMatches(all, name1, name2);
      FindMatches(list, name1, name2);
    }
  }


  // ------------------------------------------------------------------------
  // Reading files
  // ------------------------------------------------------------------------

  /** The assignments in the order they are read: the rightmost file first. */
  function ReadOrder(files: seq<seq<Assignment>>): seq<Assignment> {
    if files == [] then [] else ReadOrder(files[1..]) + files[0]
  }

  /** The last assignment of the leftmost file that sets `name`. */
  function Leftmost(files: seq<seq<Assignment>>, name: string): Option<Assignment> {
    if files == [] then None
    else if LastOf(files[0], name).Some? then LastOf(files[0], name)
    else Leftmost(files[1..], name)
  }

  lemma {:induction false} ReadOrderLast(files: seq<seq<Assignment>>, name: string)
    ensures LastOf(ReadOrder(files), name) == Leftmost(files, name)
  {
    if files != [] {
      ReadOrderLast(files[1..], name);
      LastOfAppend(ReadOrder(files[1..]), files[0], name);
    }
  }

  lemma {:induction false} FindImpliesLast(all: seq<Assignment>, name: string)
    ensures Find(all, name, name).Some? <==> LastOf(all, name).Some?
  {
    if all != [] {
      FindImpliesLast(all[1..], name);
      assert all == [all[0]] + all[1..];
      LastOfAppend([all[0]], all[1..], name);
      assert [all[0]][..0] == [];
    }
  }

  lemma {:induction false} FindFirst(all: seq<Assignment>, name1: string, name2: string)
    ensures var f := Find(all, name1, name2); f.Some? ==> LastOf(all, f.value.name).Some?
  {
    if all != [] {
      FindFirst(all[1..], name1, name2);
      assert all == [all[0]] + all[1..];
      assert [all[0]][..0] == [];
      var f := Find(all, name1, name2);
      if f.Some? { LastOfAppend([all[0]], all[1..], f.value.name); }
    }
  }

  /** What the list read from some files holds: no duplicates; under one name, the last assignment of the
      leftmost file that sets it; under either of two names, the same for whichever was read first. */
  lemma FilesRead(files: seq<seq<Assignment>>, name1: string, name2: string)
    ensures var list := SavedAll([], ReadOrder(files));
      && (forall i, j :: 0 <= i < j < |list| ==> list[i].name != list[j].name)
      && Find(list, name1, name1) == Leftmost(files, name1)
      && Find(list, name1, name2) ==
           var first := Find(ReadOrder(files), name1, name2);
           if first.Some? then Leftmost(files, first.value.name) else None
  {
    var all := ReadOrder(files);
    FindSavedAll([], all, name1, name1);
    FindSavedAll([], all, name1, name2);
    ReadOrderLast(files, name1);
    FindImpliesLast(all, name1);
    FindMatches(all, name1, name1);
    FindFirst(all, name1, name2);
    var first := Find(all, name1, name2);
    if first.Some? { ReadOrderLast(files, first.value.name); }
  }

  lemma {:induction false} LastOfName(all: seq<Assignment>, name: string)
    ensures LastOf(all, name).Some? ==> LastOf(all, name).value.name == name
  {
    if all != [] { LastOfName(all[..|all| - 1], name); }
  }

  lemma {:induction false} LeftmostFrom(files: seq<seq<Assignment>>, name: string, l: nat)
    requires l < |files| && forall i :: 0 <= i < l ==> LastOf(files[i], name).None?
    ensures LastOf(files[l], name).Some? ==> Leftmost(files, name) == LastOf(files[l], name)
  {
    if l > 0 {
      assert forall i :: 0 <= i < l - 1 ==> files[1..][i] == files[i + 1];
      LeftmostFrom(files[1..], name, l - 1);
    }
  }

  lemma {:induction false} LeftmostName(files: seq<seq<Assignment>>, name: string)
    ensures Leftmost(files, name).Some? ==> Leftmost(files, name).value.name == name
  {
    if files != [] {
      LastOfName(files[0], name);
      LeftmostName(files[1..], name);
    }
  }

  /** With two names for one variable, the leftmost file that sets it is the one that counts exactly when
      it uses the name that was read first, from the rightmost files. */
  lemma LeftmostCountsExactly(files: seq<seq<Assignment>>, name1: string, name2: string, l: nat)
    requires l < |files| && (LastOf(files[l], name1).Some? || LastOf(files[l], name2).Some?)
    requires forall i :: 0 <= i < l ==> LastOf(files[i], name1).None? && LastOf(files[i], name2).None?
    ensures var found := Find(SavedAll([], ReadOrder(files)), name1, name2);
      var first := Find(ReadOrder(files), name1, name2);
      && found.Some? && first.Some?
      && (found == LastOf(files[l], name1) || found == LastOf(files[l], name2) <==>
          LastOf(files[l], first.value.name).Some?)
  {
    var all := ReadOrder(files);
    FilesRead(files, name1, name2);
    LeftmostFrom(files, name1, l);
    LeftmostFrom(files, name2, l);
    ReadOrderLast(files, name1);
    ReadOrderLast(files, name2);
    FindEither(all, name1, name2);
    FindMatches(all, name1, name2);
    FindFirst(all, name1, name2);
    var first := Find(all, name1, name2);
    ReadOrderLast(files, first.value.name);
    LeftmostName(files, first.value.name);
    LastOfName(files[l], name1);
    LastOfName(files[l], name2);
  }

  lemma {:induction false} FindEither(all: seq<Assignment>, name1: string, name2: string)
    ensures Find(all, name1, name2).Some? <==> LastOf(all, name1).Some? || LastOf(all, name2).Some?
  {
    if all != [] {
      FindEither(all[1..], name1, name2);
      assert all == [all[0]] + all[1..];
      LastOfAppend([all[0]], all[1..], name1);
      LastOfAppend([all[0]], all[1..], name2);
      assert [all[0]][..0] == [];
    }
  }

  /** Two files, each with its own name for the variable: the right one counts. */
  lemma RightmostCanCount()
    ensures var left, right := [Assignment("long", Some("left"))], [Assignment("full", Some("right"))];
      Find(SavedAll([], ReadOrder([left, right])), "full", "long") == Some(Assignment("full", Some("right")))
  {
    var left, right := [Assignment("long", Some("left"))], [Assignment("full", Some("right"))];
    var files := [left, right];
    assert left[..0] == [] && right[..0] == [];
    assert files[1..] == [right];
    assert "long" != "full" by { assert "long"[0] != "full"[0]; }
    assert ReadOrder([right]) == [] + right;
    assert ReadOrder(files) == right + left;
    FilesRead(files, "full", "long");
    assert (right + left)[0] == right[0];
    assert Leftmost(files, "full") == Leftmost([right], "full") == LastOf(right, "full");
  }

  /** An environment setting that a parameter file exports: a name alone, or a name with a value. */
  datatype Export = Export(name: string, value: Option<string>)

  /** A parameter file: its assignments and its exports. */
  datatype ParamFile = ParamFile(assignments: seq<Assignment>, exports: seq<Export>)

  /** The files of some names; a missing file holds nothing. */
  function Files(names: seq<string>, disk: map<string, ParamFile>): (r: seq<ParamFile>)
    ensures |r| == |names|
  {
    seq(|names|, i requires 0 <= i < |names| => FileOf(names[i], disk))
  }

  function FileOf(name: string, disk: map<string, ParamFile>): ParamFile {
    if name in disk then disk[name] else ParamFile([], [])
  }

  function AssignmentsOf(files: seq<ParamFile>): (r: seq<seq<Assignment>>)
    ensures |r| == |files|
  {
    if files == [] then [] else [files[0].assignments] + AssignmentsOf(files[1..])
  }

  /** The exports in the order they are read. */
  function ExportsOf(files: seq<ParamFile>): seq<Export> {
    if files == [] then [] else ExportsOf(files[1..]) + files[0].exports
  }

  /** `env_str`, the collected environment settings, with the size of its buffer. */
  datatype Buffer = Buffer(text: Option<string>, size: nat)

  /** A setting as text: its name, and its value if it has one. */
  function Setting(x: Export): string {
    x.name + (if x.value.Some? then "=" + x.value.value else "")
  }

  /** The settings after one more, separated by semicolons. */
  function Exported(env: Option<string>, x: Export): Option<string> {
    Some((if env.Some? then env.value + ";" else "") + Setting(x))
  }

  /** Name and value hold neither of the separators. */
  predicate Readable(x: Export) {
    ';' !in x.name && '=' !in x.name && (x.value.Some? ==> ';' !in x.value.value && '=' !in x.value.value)
  }

  /** Cut at the equality sign, a setting is its name, and its value if it has one. */
  lemma SettingReadBack(x: Export)
    requires Readable(x)
    ensures ';' !in Setting(x)
    ensures Argv.Pieces(Setting(x), '=') == [x.name] + (if x.value.Some? then [x.value.value] else [])
  {
    match x.value {
      case None =>
        assert Setting(x) == x.name;
        Argv.PiecesOfClean(x.name, '=', "");
      case Some(v) =>
        assert Setting(x) == x.name + ['='] + v;
        Argv.PiecesOfClean(x.name, '=', v);
        Argv.PiecesOfClean(v, '=', "");
    }
  }

  /** One more setting is one more piece between semicolons. */
  lemma ExportedPieces(env: Option<string>, x: Export)
    requires Readable(x)
    ensures Argv.Pieces(Exported(env, x).value, ';') ==
      (if env.Some? then Argv.Pieces(env.value, ';') else []) + [Setting(x)]
  {
    SettingReadBack(x);
    Argv.PiecesOfClean(Setting(x), ';', "");
    if env.Some? {
      assert Exported(env, x).value == env.value + [';'] + Setting(x);
      Argv.PiecesAppend(env.value, ';', Setting(x));
    } else {
      assert Exported(env, x).value == Setting(x);
    }
  }

  /** The settings as texts. */
  function Settings(exports: seq<Export>): (r: seq<string>)
    ensures |r| == |exports| && forall i :: 0 <= i < |r| ==> r[i] == Setting(exports[i])
  {
    seq(|exports|, i requires 0 <= i < |exports| => Setting(exports[i]))
  }

  lemma SettingsStep(before: seq<string>, exports: seq<Export>)
    requires exports != []
    ensures before + Settings(exports) == before + [Setting(exports[0])] + Settings(exports[1..])
  {
    assert Settings(exports) == [Setting(exports[0])] + Settings(exports[1..]);
  }

  lemma {:induction false} CollectedPieces(b: Buffer, exports: seq<Export>)
    requires exports != [] && forall i :: 0 <= i < |exports| ==> Readable(exports[i])
    ensures Collected(b, exports).text.Some?
    ensures Argv.Pieces(Collected(b, exports).text.value, ';') ==
      (if b.text.Some? then Argv.Pieces(b.text.value, ';') else []) + Settings(exports)
    decreases |exports|
  {
    var x, rest, b' := exports[0], exports[1..], Added(b, exports[0]);
    var before := if b.text.Some? then Argv.Pieces(b.text.value, ';') else [];
    ExportedPieces(b.text, x);
    SettingsStep(before, exports);
    if rest == [] {
      assert Settings(rest) == [] && Collected(b', rest) == b';
    } else {
      CollectedPieces(b', rest);
    }
  }

  /** The collected settings can be read back: cut at the semicolons there is one for each export, in the same order,
      and cut at the equality sign each is name and value. */
  lemma SettingsReadBack(size: nat, exports: seq<Export>)
    requires exports != [] && forall i :: 0 <= i < |exports| ==> var x := exports[i];
      ';' !in x.name && '=' !in x.name && (x.value.Some? ==> ';' !in x.value.value && '=' !in x.value.value)
    ensures var b := Collected(Buffer(None, size), exports);
      && b.text.Some?
      && var all := Argv.Pieces(b.text.value, ';');
         && |all| == |exports|
         && forall i :: 0 <= i < |exports| ==>
              Argv.Pieces(all[i], '=') ==
              [exports[i].name] + (if exports[i].value.Some? then [exports[i].value.value] else [])
  {
    CollectedPieces(Buffer(None, size), exports);
    var all := Argv.Pieces(Collected(Buffer(None, size), exports).text.value, ';');
    assert all == Settings(exports);
    forall i | 0 <= i < |exports|
      ensures Argv.Pieces(all[i], '=') ==
        [exports[i].name] + (if exports[i].value.Some? then [exports[i].value.value] else [])
    {
      SettingReadBack(exports[i]);
    }
  }

  /** The size that `add_to_env_str` compares with: lengths and two separators. */
  function Wanted(text: string, x: Export): nat {
    |text| + |x.name| + (if x.value.Some? then |x.value.value| else 0) + 2
  }

  /** A later setting may double the buffer, the first one takes it as it is. */
  function Added(b: Buffer, x: Export): Buffer {
    Buffer(Exported(b.text, x), if b.text.Some? && b.size <= Wanted(b.text.value, x) then 2 * b.size else b.size)
  }

  /** The text and its terminator have room. */
  predicate Fits(b: Buffer) {
    b.text.Some? ==> |b.text.value| < b.size
  }

  /** A first setting as long as the buffer, or a later one that brings the text to twice the buffer's size. */
  predicate Outgrows(b: Buffer, x: Export) {
    |Exported(b.text, x).value| >= if b.text.Some? then 2 * b.size else b.size
  }

  /** The settings collected from some exports. */
  function Collected(b: Buffer, exports: seq<Export>): Buffer {
    Runs.After(Added, b, exports)
  }

  predicate Any(b: Buffer, x: Export) {
    true
  }

  lemma {:induction false} AnyRun(b: Buffer, exports: seq<Export>)
    ensures Runs.IsRun(Any, Added, b, exports)
    decreases |exports|
  {
    if exports != [] { AnyRun(Added(b, exports[0]), exports[1..]); }
  }

  lemma CollectedAppend(b: Buffer, a: seq<Export>, more: seq<Export>)
    ensures Collected(b, a + more) == Collected(Collected(b, a), more)
  {
    AnyRun(b, a);
    Runs.RunAppend(Any, Added, b, a, more);
  }

  /** Collecting settings stays within the buffer at every moment if and only if no setting outgrows it. */
  lemma FitsUnlessOutgrown(b: Buffer, exports: seq<Export>)
    requires Fits(b)
    ensures Runs.Always(Added, Fits, b, exports) <==> Runs.Never(Added, Outgrows, b, exports)
  {
    forall c, x | Fits(c) ensures Fits(Added(c, x)) <==> !Outgrows(c, x) {
      AddedLength(c, x);
    }
    AnyRun(b, exports);
    Runs.AlwaysUnlessBad(Any, Added, (c: Buffer) => true, (x: Export) => true, Fits, Outgrows, b, exports);
  }

  lemma AddedLength(b: Buffer, x: Export)
    ensures var n := |Exported(b.text, x).value|;
      b.text.Some? ==> n <= Wanted(b.text.value, x) <= n + 1
  {
  }

  const INTERNAL_LIST := "mca_base_env_list_internal"

  /** Collected settings are stored under a name of their own, and then forgotten. */
  function Internal(env: Option<string>): seq<Assignment> {
    if env.Some? && env.value != "" then [Assignment(INTERNAL_LIST, env)] else []
  }

  function Forgotten(b: Buffer): Buffer {
    if Internal(b.text) != [] then Buffer(None, b.size) else b
  }

  /** What reading a list of names amounts to: the files, and left of them all the stored settings. */
  function Readings(b: Buffer, names: seq<string>, disk: map<string, ParamFile>): seq<seq<Assignment>> {
    if names == [] then []
    else [Internal(Collected(b, ExportsOf(Files(names, disk))).text)] + AssignmentsOf(Files(names, disk))
  }

  function BufferAfter(b: Buffer, names: seq<string>, disk: map<string, ParamFile>): Buffer {
    if names == [] then b else Forgotten(Collected(b, ExportsOf(Files(names, disk))))
  }

  /** The settings of all the files have room at every moment of the reading. */
  ghost predicate ReadsSafely(b: Buffer, names: seq<string>, disk: map<string, ParamFile>) {
    Runs.Always(Added, Fits, b, ExportsOf(Files(names, disk)))
  }

  /** No setting of any of the files outgrows the buffer. */
  ghost predicate NoneOutgrows(b: Buffer, names: seq<string>, disk: map<string, ParamFile>) {
    Runs.Never(Added, Outgrows, b, ExportsOf(Files(names, disk)))
  }

  lemma ReadsSafelyExactly(b: Buffer, names: seq<string>, disk: map<string, ParamFile>)
    requires Fits(b)
    ensures ReadsSafely(b, names, disk) <==> NoneOutgrows(b, names, disk)
    ensures ReadsSafely(b, names, disk) ==> Fits(BufferAfter(b, names, disk))
  {
    var exports := ExportsOf(Files(names, disk));
    FitsUnlessOutgrown(b, exports);
    if ReadsSafely(b, names, disk) { Runs.AlwaysAtEnd(Added, Fits, b, exports); }
  }

  const ENV_SIZE := 1024

  /** The buffer of the settings collected while files are read. */
  class Keyval {
    var envStr: Option<string>
    var envSize: nat

    constructor ()
      ensures envStr == None && envSize == ENV_SIZE
    {
      envStr, envSize := None, ENV_SIZE;
    }

    function State(): Buffer
      reads this
    {
      Buffer(envStr, envSize)
    }

    /** `add_to_env_str`, writing the text into its buffer piece by piece. */
    method AddToEnvStr(x: Export)
      modifies this
      ensures State() == Added(old(State()), x)
    {
      var text := "";
      match envStr {
        case Some(s) =>
          var sz := |s| + |x.name| + (if x.value.Some? then |x.value.value| else 0) + 2;
          if envSize <= sz {
            envSize := envSize * 2;
          }
          text := s + ";";
        case None =>
      }
      text := text + x.name;
      if x.value.Some? {
        text := text + "=";
        text := text + x.value.value;
      }
      assert text == Exported(envStr, x).value;
      envStr := Some(text);
    }

    /** `add_to_env_str` for each export of a file. */
    method AddExports(exports: seq<Export>)
      modifies this
      ensures State() == Collected(old(State()), exports)
    {
      for i := 0 to |exports|
        invariant Collected(State(), exports[i..]) == Collected(old(State()), exports)
      {
        assert exports[i..][0] == exports[i] && exports[i..][1..] == exports[i + 1..];
        AddToEnvStr(exports[i]);
      }
    }
  }

  /** A list of file values, changed in place while files are read. */
  class FileValues {
    var list: seq<Assignment>

    constructor ()
      ensures list == []
    {
      list := [];
    }

    /** `save_value` */
    method SaveValue(name: string, value: Value)
      modifies this
      ensures list == Saved(old(list), Assignment(name, value))
    {
      var i := 0;
      ghost var a := Assignment(name, value);
      while i < |list| && list[i].name != name
        invariant i <= |list| && list == old(list)
        invariant Saved(list, a) == list[..i] + Saved(list[i..], a)
      {
        assert list[i..][0] == list[i] && list[i..][1..] == list[i + 1..];
        assert list[..i] + ([list[i]] + Saved(list[i + 1..], a)) == list[..i + 1] + Saved(list[i + 1..], a);
        i := i + 1;
      }
      if i < |list| {
        assert list[i..][0] == list[i] && list[i..][1..] == list[i + 1..];
        list := list[i := list[i].(value := value)];
        assert list == old(list)[..i] + ([a] + old(list)[i + 1..]);
      } else {
        assert list[i..] == [] && list[..i] == list;
        list := list + [Assignment(name, value)];
      }
    }

    /** Save some assignments in turn. */
    method SaveAll(all: seq<Assignment>)
      modifies this
      ensures list == SavedAll(old(list), all)
    {
      for i := 0 to |all|
        invariant SavedAll(list, all[i..]) == SavedAll(old(list), all)
      {
        assert all[i..][0] == all[i] && all[i..][1..] == all[i + 1..];
        SaveValue(all[i].name, all[i].value);
      }
    }

    /** `mca_base_parse_paramfile`: save every assignment of a file in turn, and collect its exports. */
    method ParseParamfile(file: ParamFile, keyval: Keyval)
      modifies this, keyval
      ensures list == SavedAll(old(list), file.assignments)
      ensures keyval.State() == Collected(old(keyval.State()), file.exports)
    {
      SaveAll(file.assignments);
      keyval.AddExports(file.exports);
    }

    /** `mca_base_internal_env_store` */
    method StoreInternal(keyval: Keyval)
      modifies this, keyval
      ensures list == SavedAll(old(list), Internal(old(keyval.envStr)))
      ensures keyval.State() == Forgotten(old(keyval.State()))
    {
      if keyval.envStr.Some? && 0 < |keyval.envStr.value| {
        SaveValue(INTERNAL_LIST, keyval.envStr);
        keyval.envStr := None;
      }
    }

    /** `read_files`: the files of a separated list, the rightmost first, and then the collected settings. */
    method ReadFiles(fileList: string, sep: char, disk: map<string, ParamFile>, keyval: Keyval) returns (ok: bool)
      modifies this, keyval
      ensures ok == (Argv.Split(fileList, sep) != [])
      ensures list == SavedAll(old(list), ReadOrder(Readings(old(keyval.State()), Argv.Split(fileList, sep), disk)))
      ensures keyval.State() == BufferAfter(old(keyval.State()), Argv.Split(fileList, sep), disk)
    {
      var tmp := Argv.SplitString(fileList, sep, false);
      if tmp == [] {
        return false;
      }
      ghost var files, b := Files(tmp, disk), keyval.State();
      var i := |tmp|;
      assert files[i..] == [];
      while i > 0
        invariant 0 <= i <= |tmp|
        invariant list == SavedAll(old(list), ReadOrder(AssignmentsOf(files[i..])))
        invariant keyval.State() == Collected(b, ExportsOf(files[i..]))
      {
        i := i - 1;
        var file := FileOf(tmp[i], disk);
        assert files[i..][0] == file && files[i..][1..] == files[i + 1..];
        ReadOneMore(old(list), b, files[i..]);
        ParseParamfile(file, keyval);
      }
      assert files[0..] == files;
      InternalIsLeftmost(old(list), AssignmentsOf(files), Internal(keyval.envStr));
      StoreInternal(keyval);
      return true;
    }
  }

  lemma ReadOneMore(list: seq<Assignment>, b: Buffer, files: seq<ParamFile>)
    requires files != []
    ensures SavedAll(list, ReadOrder(AssignmentsOf(files))) ==
      SavedAll(SavedAll(list, ReadOrder(AssignmentsOf(files[1..]))), files[0].assignments)
    ensures Collected(b, ExportsOf(files)) == Collected(Collected(b, ExportsOf(files[1..])), files[0].exports)
  {
    var v := AssignmentsOf(files);
    assert v[1..] == AssignmentsOf(files[1..]);
    SavedAllAppend(list, ReadOrder(v[1..]), v[0]);
    CollectedAppend(b, ExportsOf(files[1..]), files[0].exports);
  }

  /** What is saved last counts like a file to the left of all. */
  lemma InternalIsLeftmost(list: seq<Assignment>, files: seq<seq<Assignment>>, last: seq<Assignment>)
    ensures SavedAll(list, ReadOrder([last] + files)) == SavedAll(SavedAll(list, ReadOrder(files)), last)
  {
    assert ([last] + files)[1..] == files;
    SavedAllAppend(list, ReadOrder(files), last);
  }

  lemma {:induction false} SavedAllAppend(list: seq<Assignment>, a: seq<Assignment>, b: seq<Assignment>)
    ensures SavedAll(list, a + b) == SavedAll(SavedAll(list, a), b)
    decreases |a|
  {
    if a == [] {
      assert a + b == b;
    } else {
      assert (a + b)[1..] == a[1..] + b;
      SavedAllAppend(Saved(list, a[0]), a[1..], b);
    }
  }

  // ------------------------------------------------------------------------
  // The initial value of a variable
  // ------------------------------------------------------------------------

  const MCA_PREFIX := "WW_MCA_"

  datatype Source = Default | CommandLine | Env | File | Override

  datatype Status = Success | NotFound

  /** The sources in order of priority: the value each gives to the variable, if any. */
  function Candidates(override: Option<Value>, env: (Source, Option<Value>), envarFile: Option<Value>,
                      paramFile: Option<Value>, defaultOnly: bool, environmentOnly: bool):
      seq<(Source, Option<Value>)> {
    var files := !defaultOnly && !environmentOnly;
    [ (Override, if files then override else None),
      (env.0, if !defaultOnly then env.1 else None),
      (File, if files then envarFile else None),
      (File, if files then paramFile else None) ]
  }

  /** The first source that gives a value, and that value. */
  function FirstCandidate(c: seq<(Source, Option<Value>)>): (Source, Option<Value>) {
    if c == [] then (Default, None)
    else if c[0].1.Some? then c[0]
    else FirstCandidate(c[1..])
  }

  lemma CandidateOrder(override: Option<Value>, env: (Source, Option<Value>), envarFile: Option<Value>,
                       paramFile: Option<Value>, defaultOnly: bool, environmentOnly: bool)
    ensures FirstCandidate(Candidates(override, env, envarFile, paramFile, defaultOnly, environmentOnly)) ==
      if defaultOnly then (Default, None)
      else if override.Some? && !environmentOnly then (Override, override)
      else if env.1.Some? then env
      else if envarFile.Some? && !environmentOnly then (File, envarFile)
      else if paramFile.Some? && !environmentOnly then (File, paramFile)
      else (Default, None)
  {
    var c := Candidates(override, env, envarFile, paramFile, defaultOnly, environmentOnly);
    var c1, c2, c3 := c[1..], c[1..][1..], c[1..][1..][1..];
    assert c1 == [c[1], c[2], c[3]] && c2 == [c[2], c[3]] && c3 == [c[3]];
    assert FirstCandidate(c3) == if c[3].1.Some? then c[3] else FirstCandidate(c3[1..]);
    assert FirstCandidate(c2) == if c[2].1.Some? then c[2] else FirstCandidate(c3);
    assert FirstCandidate(c1) == if c[1].1.Some? then c[1] else FirstCandidate(c2);
  }

  const SOURCE := "SOURCE_"

  function Lower(c: char): char {
    if 'A' <= c <= 'Z' then (c as int + 32) as char else c
  }

  /** `strcasecmp` finds no difference. */
  predicate SameNoCase(a: string, b: string) {
    |a| == |b| && forall i :: 0 <= i < |a| ==> Lower(a[i]) == Lower(b[i])
  }

  /** `mca_base_var_t`, for a string variable. `expand` is what storing a string does to it. */
  class Var {
    const fullName: string
    const longName: string
    const defaultOnly: bool
    const environmentOnly: bool
    const overrideFile: string
    const expand: string -> string
    var settable: bool
    var overridden: bool
    var source: Source
    var sourceFile: Option<string>
    var storage: Value
    var fileValue: Option<Assignment>

    constructor (fullName: string, longName: string, defaultOnly: bool, environmentOnly: bool, settable: bool,
                 overrideFile: string, expand: string -> string, default: Value)
      ensures this.fullName == fullName && this.longName == longName && this.defaultOnly == defaultOnly
      ensures this.environmentOnly == environmentOnly && this.settable == settable && this.expand == expand
      ensures this.overrideFile == overrideFile && storage == default && !overridden
    {
      this.fullName, this.longName, this.defaultOnly := fullName, longName, defaultOnly;
      this.environmentOnly, this.settable, this.expand := environmentOnly, settable, expand;
      this.overrideFile := overrideFile;
      overridden, source, sourceFile, storage, fileValue := false, Default, None, default, None;
    }

    /** `var_set_string`: nothing for NULL and for the empty string. */
    function Stored(value: Value): Value {
      if value.None? || value.value == "" then None else Some(expand(value.value))
    }

    /** The name under which an environment sets the variable: the long name, or else the full name. */
    function EnvName(env: map<string, string>): Option<string> {
      if MCA_PREFIX + longName in env then Some(longName)
      else if MCA_PREFIX + fullName in env then Some(fullName)
      else None
    }

    /** What the environment says about where its value comes from. */
    function EnvCompanion(env: map<string, string>): Option<string> {
      var name := EnvName(env);
      if name.Some? && MCA_PREFIX + SOURCE + name.value in env then Some(env[MCA_PREFIX + SOURCE + name.value])
      else None
    }

    /** The file that a companion "file:..." names. */
    function NamedFile(env: map<string, string>): Option<string> {
      var c := EnvCompanion(env);
      if c.Some? && |c.value| >= 5 && SameNoCase(c.value[..5], "file:") then Some(c.value[5..]) else None
    }

    /** Source and value that an environment gives. */
    function FromEnv(env: map<string, string>): (Source, Option<Value>) {
      var name, c, file := EnvName(env), EnvCompanion(env), NamedFile(env);
      ( if file.Some? then (if file.value == overrideFile then Override else File)
        else if c.Some? && SameNoCase(c.value, "command") then CommandLine
        else Env,
        if name.Some? then Some(Some(env[MCA_PREFIX + name.value])) else None )
    }

    /** The value a list of file values gives. */
    function FromList(list: seq<Assignment>): Option<Value> {
      var f := Find(list, fullName, longName);
      if f.Some? then Some(f.value.value) else None
    }

    /** `var_set_from_file` */
    method SetFromFile(list: seq<Assignment>) returns (rc: Status)
      modifies this
      ensures settable == old(settable) && overridden == old(overridden) && sourceFile == old(sourceFile)
      ensures rc == Success <==> FromList(list).Some? && !defaultOnly && !environmentOnly && old(source) != Override
      ensures rc == Success ==> source == File && storage == Stored(FromList(list).value)
      ensures rc == Success ==> fileValue == Find(list, fullName, longName)
      ensures rc == NotFound ==> unchanged(this)
    {
      var i := 0;
      while i < |list| && list[i].name != fullName && list[i].name != longName
        invariant i <= |list| && Find(list, fullName, longName) == Find(list[i..], fullName, longName)
        modifies {}
      {
        assert list[i..][0] == list[i] && list[i..][1..] == list[i + 1..];
        i := i + 1;
      }
      if i == |list| {
        return NotFound;
      }
      if defaultOnly {
        return NotFound;
      }
      if environmentOnly {
        return NotFound;
      }
      if source == Override {
        return NotFound;
      }
      fileValue := Some(list[i]);
      source := File;
      storage := Stored(list[i].value);
      return Success;
    }

    /** `var_get_env` */
    method GetEnv(env: map<string, string>, name: string) returns (companion: Option<string>, value: Option<string>)
      ensures value == if MCA_PREFIX + name in env then Some(env[MCA_PREFIX + name]) else None
      ensures companion ==
        if MCA_PREFIX + name in env && MCA_PREFIX + SOURCE + name in env then Some(env[MCA_PREFIX + SOURCE + name])
        else None
    {
      companion := if MCA_PREFIX + SOURCE + name in env then Some(env[MCA_PREFIX + SOURCE + name]) else None;
      value := if MCA_PREFIX + name in env then Some(env[MCA_PREFIX + name]) else None;
      if value.None? {
        companion := None;
      }
    }

    /** `var_set_from_env`: a companion in the environment can pass the value off as that of another source. */
    method SetFromEnv(env: map<string, string>) returns (rc: Status)
      modifies this
      ensures settable == old(settable) && overridden == old(overridden) && fileValue == old(fileValue)
      ensures rc == Success <==> FromEnv(env).1.Some? && !defaultOnly && old(source) != Override
      ensures rc == Success ==> source == FromEnv(env).0 && storage == Stored(FromEnv(env).1.value)
      ensures rc == Success ==> sourceFile == if NamedFile(env).Some? then NamedFile(env) else old(sourceFile)
      ensures rc == NotFound ==> unchanged(this)
    {
      var companion, value := GetEnv(env, longName);
      if value.None? {
        companion, value := GetEnv(env, fullName);
      }
      if value.None? {
        return NotFound;
      }
      if defaultOnly {
        return NotFound;
      }
      if source == Override {
        return NotFound;
      }
      source := Env;
      if companion.Some? {
        if |companion.value| >= 5 && SameNoCase(companion.value[..5], "file:") {
          sourceFile := Some(companion.value[5..]);
          source := if companion.value[5..] == overrideFile then Override else File;
        } else if SameNoCase(companion.value, "command") {
          source := CommandLine;
        }
      }
      storage := Stored(value);
      return Success;
    }

    /** The override file gives a value and no flag masks it. */
    predicate FileOverrides(override: seq<Assignment>) {
      FromList(override).Some? && !defaultOnly && !environmentOnly
    }

    /** The environment claims the override file as the source of its value, and is heard. */
    predicate EnvClaims(override: seq<Assignment>, env: map<string, string>) {
      && !defaultOnly && FromEnv(env).0 == Override && FromEnv(env).1.Some?
      && (environmentOnly || FromList(override).None?)
    }

    /** The environment decides: it gives a value, and no flag and no override takes its place. */
    predicate EnvDecides(override: seq<Assignment>, env: map<string, string>) {
      !defaultOnly && !FileOverrides(override) && FromEnv(env).1.Some?
    }

    /** `var_set_initial`: the first source in order of priority decides, with the flags masking sources. Its value is
        stored expanded, and NULL or the empty string as NULL. */
    method SetInitial(override: seq<Assignment>, env: map<string, string>, envarFiles: seq<Assignment>,
                      paramFiles: seq<Assignment>)
      modifies this
      ensures var (decider, decided) :=
          FirstCandidate(Candidates(FromList(override), FromEnv(env), FromList(envarFiles), FromList(paramFiles),
                                    defaultOnly, environmentOnly));
        source == decider && match decided
          case None => storage == old(storage)
          case Some(v) => storage == if v.None? || v.value == "" then None else Some(expand(v.value))
      ensures if FileOverrides(override)
        then !settable && overridden
        else settable == old(settable) && overridden == old(overridden)
      ensures source == Override <==> FileOverrides(override) || EnvClaims(override, env)
      ensures old(settable) && !old(overridden) ==>
        ((source == Override && settable && !overridden) <==> EnvClaims(override, env))
      ensures sourceFile ==
        if EnvDecides(override, env) && NamedFile(env).Some? then NamedFile(env) else old(sourceFile)
      ensures fileValue == if FileOverrides(override) then Find(override, fullName, longName)
        else if EnvDecides(override, env) || source != File then old(fileValue)
        else if Find(envarFiles, fullName, longName).Some? then Find(envarFiles, fullName, longName)
        else Find(paramFiles, fullName, longName)
    {
      source := Default;
      CandidateOrder(FromList(override), FromEnv(env), FromList(envarFiles), FromList(paramFiles),
                     defaultOnly, environmentOnly);
      var rc := SetFromFile(override);
      if rc == Success {
        settable, overridden := false, true;
        source := Override;
      }
      rc := SetFromEnv(env);
      if rc != NotFound {
        return;
      }
      rc := SetFromFile(envarFiles);
      if rc != NotFound {
        return;
      }
      rc := SetFromFile(paramFiles);
    }
  }

  /** The value an environment gives, by the long name before the full one, and the companion of the name that does. */
  lemma EnvExactly(v: Var, env: map<string, string>)
    ensures v.FromEnv(env).1 ==
      if "WW_MCA_" + v.longName in env then Some(Some(env["WW_MCA_" + v.longName]))
      else if "WW_MCA_" + v.fullName in env then Some(Some(env["WW_MCA_" + v.fullName]))
      else None
    ensures v.EnvCompanion(env) ==
      if "WW_MCA_" + v.longName in env then
        (if "WW_MCA_SOURCE_" + v.longName in env then Some(env["WW_MCA_SOURCE_" + v.longName]) else None)
      else if "WW_MCA_" + v.fullName in env && "WW_MCA_SOURCE_" + v.fullName in env then
        Some(env["WW_MCA_SOURCE_" + v.fullName])
      else None
  {
    assert MCA_PREFIX + SOURCE == "WW_MCA_SOURCE_";
  }

  /** The source that a companion names: "file:" in any case and a file, which may be the override file, or "command" in
      any case; anything else, and none, is the environment. */
  lemma CompanionTable(v: Var, env: map<string, string>)
    ensures v.EnvCompanion(env).None? ==> v.FromEnv(env).0 == Env && v.NamedFile(env) == None
    ensures v.EnvCompanion(env).Some? ==> var c := v.EnvCompanion(env).value;
      if && |c| >= 5 && (c[0] == 'f' || c[0] == 'F') && (c[1] == 'i' || c[1] == 'I')
         && (c[2] == 'l' || c[2] == 'L') && (c[3] == 'e' || c[3] == 'E') && c[4] == ':'
      then v.FromEnv(env).0 == (if c[5..] == v.overrideFile then Override else File) && v.NamedFile(env) == Some(c[5..])
      else && v.NamedFile(env) == None
           && v.FromEnv(env).0 ==
              if && |c| == 7 && (c[0] == 'c' || c[0] == 'C') && (c[1] == 'o' || c[1] == 'O')
                 && (c[2] == 'm' || c[2] == 'M') && (c[3] == 'm' || c[3] == 'M') && (c[4] == 'a' || c[4] == 'A')
                 && (c[5] == 'n' || c[5] == 'N') && (c[6] == 'd' || c[6] == 'D')
              then CommandLine else Env
  {
  }

  /** A variable named "l" that an environment sets as if from the override file "o": it stays settable. */
  method ClaimOverride() returns (v: Var)
    ensures v.source == Override && v.settable && !v.overridden
  {
    v := new Var("f", "l", false, false, true, "o", s => s, None);
    var env := map[MCA_PREFIX + "l" := "x", MCA_PREFIX + SOURCE + "l" := "file:o"];
    assert "file:o"[..5] == "file:" && "file:o"[5..] == "o";
    assert MCA_PREFIX + "l" != MCA_PREFIX + SOURCE + "l" by {
      assert |MCA_PREFIX + "l"| != |MCA_PREFIX + SOURCE + "l"|;
    }
    assert v.EnvName(env) == Some("l") && v.EnvCompanion(env) == Some("file:o");
    assert v.NamedFile(env) == Some("o");
    v.SetInitial([], env, [], []);
  }

  /** The value a list of files gives to a variable: that of the name read first, from the leftmost file that
      sets it. */
  function FilesValue(v: Var, files: seq<seq<Assignment>>): Option<Value> {
    var first := Find(ReadOrder(files), v.fullName, v.longName);
    if first.None? then None
    else
      var last := Leftmost(files, first.value.name);
      if last.Some? then Some(last.value.value) else None
  }

  /** In a list of files, the last assignment of the leftmost file that sets a name is the one that counts for it; the
      name of the collected settings is taken. */
  lemma SetInFile(b: Buffer, names: seq<string>, disk: map<string, ParamFile>, name: string, l: nat, k: nat)
    requires l < |names| && names[l] in disk && k < |disk[names[l]].assignments| && name != INTERNAL_LIST
    requires disk[names[l]].assignments[k].name == name
    requires forall j :: k < j < |disk[names[l]].assignments| ==> disk[names[l]].assignments[j].name != name
    requires forall i, j :: 0 <= i < l && names[i] in disk && 0 <= j < |disk[names[i]].assignments| ==>
      disk[names[i]].assignments[j].name != name
    ensures Leftmost(Readings(b, names, disk), name) == Some(disk[names[l]].assignments[k])
  {
    var files := Files(names, disk);
    var readings, internal := Readings(b, names, disk), Internal(Collected(b, ExportsOf(files)).text);
    LastOfAt(files[l].assignments, name, k);
    LastOfNone(internal, name);
    forall i | 0 <= i < l + 1 ensures LastOf(readings[i], name).None? {
      if i > 0 {
        AssignmentsAt(files, i - 1);
        LastOfNone(files[i - 1].assignments, name);
      }
    }
    AssignmentsAt(files, l);
    LeftmostFrom(readings, name, l + 1);
  }

  lemma {:induction false} AssignmentsAt(files: seq<ParamFile>, i: nat)
    requires i < |files|
    ensures AssignmentsOf(files)[i] == files[i].assignments
  {
    if i > 0 { AssignmentsAt(files[1..], i - 1); }
  }

  /** So it decides what the files give to the variable, when none of them uses its other name. */
  lemma FileDecides(v: Var, b: Buffer, names: seq<string>, disk: map<string, ParamFile>, name: string, other: string,
                    l: nat, k: nat)
    requires (name == v.fullName && other == v.longName) || (name == v.longName && other == v.fullName)
    requires l < |names| && names[l] in disk && k < |disk[names[l]].assignments|
    requires name != INTERNAL_LIST && other != INTERNAL_LIST
    requires disk[names[l]].assignments[k].name == name
    requires forall j :: k < j < |disk[names[l]].assignments| ==> disk[names[l]].assignments[j].name != name
    requires forall i, j :: 0 <= i < l && names[i] in disk && 0 <= j < |disk[names[i]].assignments| ==>
      disk[names[i]].assignments[j].name != name
    requires other != name ==> forall i, j ::
      0 <= i < |names| && names[i] in disk && 0 <= j < |disk[names[i]].assignments| ==>
      disk[names[i]].assignments[j].name != other
    ensures FilesValue(v, Readings(b, names, disk)) == Some(disk[names[l]].assignments[k].value)
  {
    var files := Readings(b, names, disk);
    SetInFile(b, names, disk, name, l, k);
    ReadOrderLast(files, name);
    FindEither(ReadOrder(files), v.fullName, v.longName);
    FindMatches(ReadOrder(files), v.fullName, v.longName);
    FindFirst(ReadOrder(files), v.fullName, v.longName);
    if other != name {
      NotInFiles(b, names, disk, other);
      ReadOrderLast(files, other);
    }
  }

  lemma {:induction false} LeftmostNone(files: seq<seq<Assignment>>, name: string)
    requires forall i :: 0 <= i < |files| ==> LastOf(files[i], name).None?
    ensures Leftmost(files, name) == None
  {
    if files != [] { LeftmostNone(files[1..], name); }
  }

  lemma NotInFiles(b: Buffer, names: seq<string>, disk: map<string, ParamFile>, name: string)
    requires names != [] && name != INTERNAL_LIST
    requires forall i, j :: 0 <= i < |names| && names[i] in disk && 0 <= j < |disk[names[i]].assignments| ==>
      disk[names[i]].assignments[j].name != name
    ensures Leftmost(Readings(b, names, disk), name) == None
  {
    var files, readings := Files(names, disk), Readings(b, names, disk);
    LastOfNone(readings[0], name);
    forall i | 0 <= i < |readings| ensures LastOf(readings[i], name).None? {
      if i > 0 {
        AssignmentsAt(files, i - 1);
        LastOfNone(files[i - 1].assignments, name);
      }
    }
    LeftmostNone(readings, name);
  }

  /** All the files resolved, or none. */
  function Found(names: seq<string>, search: string -> Option<string>): Option<seq<string>>
    decreases |names|
  {
    if names == [] then Some([])
    else if search(names[0]).None? || Found(names[1..], search).None? then None
    else Some([search(names[0]).value] + Found(names[1..], search).value)
  }

  /** They are resolved exactly when every one is, in the order of the names. */
  lemma {:induction false} FoundExactly(names: seq<string>, search: string -> Option<string>, r: seq<string>)
    ensures Found(names, search) == Some(r) <==>
      |r| == |names| && forall i :: 0 <= i < |names| ==> search(names[i]) == Some(r[i])
    decreases |names|
  {
    if names != [] && r != [] {
      FoundExactly(names[1..], search, r[1..]);
      assert r == [r[0]] + r[1..];
      if |r| == |names| && forall i :: 0 <= i < |names| ==> search(names[i]) == Some(r[i]) {
        assert forall i :: 0 <= i < |names| - 1 ==> search(names[1..][i]) == Some(r[1..][i]);
      }
      if Found(names, search) == Some(r) {
        assert Found(names[1..], search) == Some(r[1..]);
        forall i | 0 <= i < |names| ensures search(names[i]) == Some(r[i]) {
          if i > 0 { assert search(names[1..][i - 1]) == Some(r[1..][i - 1]); }
        }
      }
    }
  }

  function Following(argv: seq<string>, rest: Option<seq<string>>): Option<seq<string>> {
    if rest.Some? then Some(argv + rest.value) else None
  }

  lemma FollowingNone(rest: Option<seq<string>>)
    ensures Following([], rest) == rest
  {
    if rest.Some? { assert [] + rest.value == rest.value; }
  }

  lemma FoundStep(files: seq<string>, i: nat, argv: seq<string>, search: string -> Option<string>)
    requires i < |files|
    ensures search(files[i]).None? ==> Found(files[i..], search).None?
    ensures search(files[i]).Some? ==>
      Following(argv, Found(files[i..], search)) ==
      Following(argv + [search(files[i]).value], Found(files[i + 1..], search))
  {
    assert files[i..][0] == files[i] && files[i..][1..] == files[i + 1..];
    var rest := Found(files[i + 1..], search);
    if search(files[i]).Some? && rest.Some? {
      var first := [search(files[i]).value];
      assert argv + (first + rest.value) == (argv + first) + rest.value;
    }
  }

  /** A file list with the files of a prefix list in front, when all of those are found. */
  function WithPrefix(prefix: Option<string>, files: string, sep: char, search: string -> Option<string>): string {
    if prefix.None? then files
    else
      var found := Found(Argv.Split(prefix.value, sep), search);
      if found.None? then files else Argv.Joined(found.value, sep) + [sep] + files
  }

  /** The files of the prefix list are then the leftmost ones. */
  lemma PrefixIsLeftmost(prefix: Option<string>, files: string, sep: char, search: string -> Option<string>)
    requires prefix.Some? && Found(Argv.Split(prefix.value, sep), search).Some?
    requires Argv.Clean(Found(Argv.Split(prefix.value, sep), search).value, sep)
    ensures Argv.Split(WithPrefix(prefix, files, sep, search), sep) ==
      Found(Argv.Split(prefix.value, sep), search).value + Argv.Split(files, sep)
  {
    var found := Found(Argv.Split(prefix.value, sep), search).value;
    Argv.SplitAppend(Argv.Joined(found, sep), sep, files);
    Argv.SplitJoined(found, sep);
  }

  /** Where files are looked up: the search path, the directory for relative names, whether the path is searched for
      those too, and the environment. `access` says what a name in a directory, or on its own, stands for when it is a
      readable file. */
  datatype Lookup = Lookup(path: string, relPath: string, relPathSearch: bool, env: map<string, string>,
                           access: (Option<string>, string) -> Option<string>)

  predicate IsAbsolute(name: string) {
    name != "" && name[0] == '/'
  }

  /** The number of characters before the first `c`. */
  function Before(s: string, c: char): (n: nat)
    ensures n <= |s| && c !in s[..n] && (n < |s| ==> s[n] == c)
  {
    if s == "" || s[0] == c then 0 else 1 + Before(s[1..], c)
  }

  /** A directory of the search path, with an environment variable at its head replaced. */
  function Directory(dir: string, env: map<string, string>): Option<string> {
    if dir == "" || dir[0] != '$' then Some(dir)
    else
      var n := Before(dir, '/');
      if dir[1..n] in env then Some(env[dir[1..n]] + dir[n..]) else None
  }

  /** The directory "$name" or "$name/..." is that of the environment variable, when there is one. */
  lemma DirectoryReplaced(name: string, rest: string, env: map<string, string>)
    requires '/' !in name && (rest == "" || rest[0] == '/')
    ensures Directory("$" + name + rest, env) == if name in env then Some(env[name] + rest) else None
  {
    var dir := "$" + name + rest;
    var n := Before(dir, '/');
    assert forall i :: 0 <= i < 1 + |name| ==> dir[i] != '/' by {
      assert forall i :: 0 < i < 1 + |name| ==> dir[i] == name[i - 1];
    }
    assert rest != "" ==> dir[1 + |name|] == rest[0];
    assert n == 1 + |name|;
    assert dir[1..n] == name && dir[n..] == rest;
  }

  /** What a name is in one directory of the search path. */
  function InDirectory(l: Lookup, dir: string, name: string): Option<string> {
    var d := Directory(dir, l.env);
    if d.None? then None else l.access(d, name)
  }

  /** The first of the directories that has the file decides. */
  function InFirst(l: Lookup, dirs: seq<string>, name: string): Option<string> {
    if dirs == [] then None
    else if InDirectory(l, dirs[0], name).Some? then InDirectory(l, dirs[0], name)
    else InFirst(l, dirs[1..], name)
  }

  /** How a name of a prefix list is found. */
  function Search(l: Lookup): string -> Option<string> {
    name =>
      if IsAbsolute(name) then l.access(None, name)
      else if !l.relPathSearch && '/' in name then l.access(Some(l.relPath), name)
      else InFirst(l, Argv.Split(l.path, ':'), name)
  }

  lemma {:induction false} InFirstDirectory(l: Lookup, dirs: seq<string>, name: string)
    ensures match InFirst(l, dirs, name)
      case None => forall i :: 0 <= i < |dirs| ==> InDirectory(l, dirs[i], name).None?
      case Some(r) => (exists i :: 0 <= i < |dirs| && InDirectory(l, dirs[i], name) == Some(r)
                         && forall j :: 0 <= j < i ==> InDirectory(l, dirs[j], name).None?)
  {
    if dirs != [] && InDirectory(l, dirs[0], name).None? {
      InFirstDirectory(l, dirs[1..], name);
      if InFirst(l, dirs, name).Some? {
        var i :| 0 <= i < |dirs| - 1 && InDirectory(l, dirs[1..][i], name) == InFirst(l, dirs, name)
          && forall j :: 0 <= j < i ==> InDirectory(l, dirs[1..][j], name).None?;
        assert dirs[i + 1] == dirs[1..][i];
        forall j | 0 <= j < i + 1 ensures InDirectory(l, dirs[j], name).None? {
          if j > 0 { assert dirs[j] == dirs[1..][j - 1]; }
        }
      } else {
        forall i | 0 <= i < |dirs| ensures InDirectory(l, dirs[i], name).None? {
          if i > 0 { assert dirs[i] == dirs[1..][i - 1]; }
        }
      }
    }
  }

  /** Nothing is found in the directories before place `i`, and there the file is, unless that is the end. */
  lemma {:induction false} FirstDirectory(l: Lookup, dirs: seq<string>, name: string) returns (i: nat)
    ensures i <= |dirs| && forall j :: 0 <= j < i ==>
      Directory(dirs[j], l.env).Some? ==> l.access(Directory(dirs[j], l.env), name) == None
    ensures i < |dirs| ==> Directory(dirs[i], l.env).Some? && l.access(Directory(dirs[i], l.env), name).Some?
    ensures InFirst(l, dirs, name) == if i < |dirs| then l.access(Directory(dirs[i], l.env), name) else None
  {
    if dirs == [] || InDirectory(l, dirs[0], name).Some? {
      i := 0;
    } else {
      i := FirstDirectory(l, dirs[1..], name);
      i := i + 1;
      assert forall j :: 0 < j < |dirs| ==> dirs[j] == dirs[1..][j - 1];
    }
  }

  /** The three ways of looking a name up: an absolute one on its own, a relative one with a slash in the directory for
      those, unless the path is to be searched for it too, and any other in the first directory of the path that has
      the file. */
  lemma SearchExactly(l: Lookup, name: string) returns (i: nat)
    ensures var dirs, relative := Argv.Split(l.path, ':'), name == "" || name[0] != '/';
      && i <= |dirs|
      && (!relative ==> Search(l)(name) == l.access(None, name))
      && (relative && !l.relPathSearch && '/' in name ==> Search(l)(name) == l.access(Some(l.relPath), name))
      && (relative && (l.relPathSearch || '/' !in name) ==>
           && (forall j :: 0 <= j < i ==>
                Directory(dirs[j], l.env).Some? ==> l.access(Directory(dirs[j], l.env), name) == None)
           && (i < |dirs| ==> Directory(dirs[i], l.env).Some? && l.access(Directory(dirs[i], l.env), name).Some?)
           && Search(l)(name) == if i < |dirs| then l.access(Directory(dirs[i], l.env), name) else None)
  {
    var dirs := Argv.Split(l.path, ':');
    i := FirstDirectory(l, dirs, name);
    if !IsAbsolute(name) && (l.relPathSearch || '/' !in name) {
      assert Search(l)(name) == InFirst(l, dirs, name);
    }
  }

  /** `ww_path_find` */
  method PathFind(l: Lookup, name: string, pathv: seq<string>) returns (fullpath: Option<string>)
    ensures fullpath == if IsAbsolute(name) then l.access(None, name) else InFirst(l, pathv, name)
  {
    if IsAbsolute(name) {
      fullpath := l.access(None, name);
      return;
    }
    fullpath := None;
    var i := 0;
    assert pathv[0..] == pathv;
    while i < |pathv| && fullpath.None?
      invariant i <= |pathv|
      invariant InFirst(l, pathv, name) == if fullpath.Some? then fullpath else InFirst(l, pathv[i..], name)
    {
      assert pathv[i..][0] == pathv[i] && pathv[i..][1..] == pathv[i + 1..];
      if pathv[i] != "" && pathv[i][0] == '$' {
        var delimit := Before(pathv[i], '/');
        if pathv[i][1..delimit] in l.env {
          fullpath := l.access(Some(l.env[pathv[i][1..delimit]] + pathv[i][delimit..]), name);
        }
      } else {
        fullpath := l.access(Some(pathv[i]), name);
      }
      i := i + 1;
    }
  }

  /** `fixup_files`: look up every file of the list, and give up at the first that is not found. */
  method FixupFiles(fileList: string, sep: char, l: Lookup) returns (fixed: Option<string>)
    ensures fixed == match Found(Argv.Split(fileList, sep), Search(l))
      case None => None
      case Some(found) => Some(Argv.Joined(found, sep))
  {
    var searchPath := Argv.SplitString(l.path, ':', false);
    var files := Argv.SplitString(fileList, sep, false);
    var argv: seq<string> := [];
    FollowingNone(Found(files, Search(l)));
    assert files[0..] == files;
    for i := 0 to |files|
      invariant Found(files, Search(l)) == Following(argv, Found(files[i..], Search(l)))
    {
      FoundStep(files, i, argv, Search(l));
      var tmpFile;
      if IsAbsolute(files[i]) {
        tmpFile := l.access(None, files[i]);
      } else if !l.relPathSearch && '/' in files[i] {
        tmpFile := l.access(Some(l.relPath), files[i]);
      } else {
        tmpFile := PathFind(l, files[i], searchPath);
      }
      if tmpFile.None? {
        return None;
      }
      argv := argv + [tmpFile.value];
    }
    assert argv + [] == argv;
    var joined := Argv.Join(argv, sep);
    return Some(joined);
  }

  /** `resolve_relative_paths`, when there is a prefix list. */
  method ResolveRelativePaths(prefix: Option<string>, files: string, sep: char, l: Lookup) returns (files': string)
    ensures files' == WithPrefix(prefix, files, sep, Search(l))
  {
    files' := files;
    if prefix.Some? {
      var fixed := FixupFiles(prefix.value, sep, l);
      if fixed.Some? {
        files' := fixed.value + [sep] + files;
      }
    }
  }

  /** The file lists at the end of `mca_base_var_cache_files`. The list that is read for the environment is a copy of
      the list of parameter files, and is split at commas. */
  datatype Config = Config(paramPrefix: Option<string>, envarPrefix: Option<string>, paramFiles: string,
                           lookup: Lookup, disk: map<string, ParamFile>)

  /** The names in the three file lists. */
  function ConfigNames(c: Config, overrideFile: string): (seq<string>, seq<string>, seq<string>) {
    ( Argv.Split(WithPrefix(c.paramPrefix, c.paramFiles, ':', Search(c.lookup)), ':'),
      Argv.Split(WithPrefix(c.envarPrefix, c.paramFiles, ',', Search(c.lookup)), ','),
      if overrideFile in c.disk then Argv.Split(overrideFile, ':') else [] )
  }

  /** The buffer of collected settings before each list is read. */
  function ConfigBuffers(c: Config, overrideFile: string): (Buffer, Buffer, Buffer) {
    var (params, envars, _) := ConfigNames(c, overrideFile);
    var b1 := Buffer(None, ENV_SIZE);
    var b2 := BufferAfter(b1, params, c.disk);
    (b1, b2, BufferAfter(b2, envars, c.disk))
  }

  /** What the three file lists hold when they are read in turn. */
  function ConfigReadings(c: Config, overrideFile: string):
      (seq<seq<Assignment>>, seq<seq<Assignment>>, seq<seq<Assignment>>) {
    var (params, envars, overrides) := ConfigNames(c, overrideFile);
    var (b1, b2, b3) := ConfigBuffers(c, overrideFile);
    (Readings(b1, params, c.disk), Readings(b2, envars, c.disk), Readings(b3, overrides, c.disk))
  }

  /** Reading all three lists stays within the buffer if and only if no setting of any of their files outgrows it. */
  lemma ConfigSafeExactly(c: Config, overrideFile: string)
    ensures var (params, envars, overrides) := ConfigNames(c, overrideFile);
      var (b1, b2, b3) := ConfigBuffers(c, overrideFile);
      ReadsSafely(b1, params, c.disk) && ReadsSafely(b2, envars, c.disk) && ReadsSafely(b3, overrides, c.disk)
      <==> NoneOutgrows(b1, params, c.disk) && NoneOutgrows(b2, envars, c.disk) && NoneOutgrows(b3, overrides, c.disk)
  {
    var (params, envars, overrides) := ConfigNames(c, overrideFile);
    var (b1, b2, b3) := ConfigBuffers(c, overrideFile);
    ReadsSafelyExactly(b1, params, c.disk);
    if ReadsSafely(b1, params, c.disk) {
      ReadsSafelyExactly(b2, envars, c.disk);
      if ReadsSafely(b2, envars, c.disk) {
        ReadsSafelyExactly(b3, overrides, c.disk);
      }
    }
  }

  /** A first setting of 1024 characters has no room. */
  method OutgrowBuffer() returns (keyval: Keyval, x: Export)
    ensures |x.name| == 1024 && x.value.None? && keyval.State() == Buffer(Some(x.name), 1024)
    ensures Outgrows(Buffer(None, 1024), x) && !Fits(keyval.State())
  {
    keyval := new Keyval();
    x := Export(seq(ENV_SIZE, _ => 'a'), None);
    assert Exported(None, x).value == x.name;
    keyval.AddToEnvStr(x);
  }

  /** Reading the three file lists (the last part of `mca_base_var_cache_files`) and then looking up a
      variable: the whole way from files and environment to the value. */
  method ReadAndResolve(v: Var, c: Config)
    modifies v
    ensures var (params, envars, overrides) := ConfigReadings(c, v.overrideFile);
      var (decider, decided) :=
        FirstCandidate(Candidates(FilesValue(v, overrides), v.FromEnv(c.lookup.env), FilesValue(v, envars),
                                  FilesValue(v, params), v.defaultOnly, v.environmentOnly));
      v.source == decider && match decided
        case None => v.storage == old(v.storage)
        case Some(x) => v.storage == if x.None? || x.value == "" then None else Some(v.expand(x.value))
  {
    var keyval := new Keyval();
    var envarFiles := c.paramFiles;
    var paramFiles := ResolveRelativePaths(c.paramPrefix, c.paramFiles, ':', c.lookup);
    var params := ReadList(v, paramFiles, ':', c.disk, keyval);
    envarFiles := ResolveRelativePaths(c.envarPrefix, envarFiles, ',', c.lookup);
    var envars := ReadList(v, envarFiles, ',', c.disk, keyval);
    var overrides := [];
    if v.overrideFile in c.disk {
      overrides := ReadList(v, v.overrideFile, ':', c.disk, keyval);
    }
    v.SetInitial(overrides, c.lookup.env, envars, params);
  }

  /** Read a list of files into an empty list of values. */
  method ReadList(v: Var, fileList: string, sep: char, disk: map<string, ParamFile>, keyval: Keyval)
    returns (list: seq<Assignment>)
    modifies keyval
    ensures forall i, j :: 0 <= i < j < |list| ==> list[i].name != list[j].name
    ensures v.FromList(list) == FilesValue(v, Readings(old(keyval.State()), Argv.Split(fileList, sep), disk))
    ensures keyval.State() == BufferAfter(old(keyval.State()), Argv.Split(fileList, sep), disk)
  {
    var values := new FileValues();
    var ok := values.ReadFiles(fileList, sep, disk, keyval);
    FilesRead(Readings(old(keyval.State()), Argv.Split(fileList, sep), disk), v.fullName, v.longName);
    return values.list;
  }
}
