/** Whole runs of file operations from an empty tree: nothing is lost, and every file holds what was done to it. */
module Runs {
  import opened Bytes
  import opened Volumes
  import opened FileNodes
  import opened Layout
  import opened Models
  import opened AppendSteps
  import opened FsTree
  import opened Ownership

  /** An operation on the file at a position of the list of files. New files are put in front. */
  datatype Op =
    | Create
    | Append(i: nat, data: Buffer)
    | Write(i: nat, offset: nat, data: Buffer)
    | Truncate(i: nat, size: nat)
    | ToEnd(i: nat)

  /** The files exist, and a NULL write does not straddle the end of its file. */
  ghost predicate Legal(op: Op, sizes: seq<nat>) {
    match op
    case Create => true
    case Append(i, _) => i < |sizes|
    case Write(i, offset, data) => i < |sizes| && (data.Null? ==> offset >= sizes[i] || offset + data.Len() <= sizes[i])
    case Truncate(i, _) => i < |sizes|
    case ToEnd(i) => i < |sizes|
  }

  ghost function ModelsOf(s: State): (ms: seq<FileModel>)
    ensures |ms| == |s.files| && forall i | 0 <= i < |ms| :: ms[i] == ModelOf(s, i)
  {
    seq(|s.files|, i requires 0 <= i < |s.files| => ModelOf(s, i))
  }

  ghost function Sizes(ms: seq<FileModel>): (r: seq<nat>)
    ensures |r| == |ms| && forall i | 0 <= i < |ms| :: r[i] == |ms[i].data|
  {
    seq(|ms|, i requires 0 <= i < |ms| => |ms[i].data|)
  }

  ghost function Datas(ms: seq<FileModel>): (r: seq<seq<byte>>)
    ensures |r| == |ms| && forall i | 0 <= i < |ms| :: r[i] == ms[i].data
  {
    seq(|ms|, i requires 0 <= i < |ms| => ms[i].data)
  }

  /** What an operation makes of the files, their sparse blocks included. */
  ghost function Effect(op: Op, ms: seq<FileModel>, bs: BlockSize, noSparse: bool): seq<FileModel>
    requires Legal(op, Sizes(ms))
  {
    match op
    case Create => [FileModel([], {})] + ms
    case Append(i, data) => ms[i := Appended(ms[i], bs, noSparse, data)]
    case Write(i, offset, data) => ms[i := FileWritten(ms[i], bs, noSparse, offset, data)]
    case Truncate(i, size) => ms[i := Resized(ms[i], bs, noSparse, size)]
    case ToEnd(_) => ms
  }

  /** What an operation should make of the contents: no blocks, nothing sparse, each file for itself. */
  ghost function Intended(op: Op, cs: seq<seq<byte>>): seq<seq<byte>> {
    match op
    case Create => [[]] + cs
    case Append(i, data) => if i < |cs| then cs[i := cs[i] + data.Bytes()] else cs
    case Write(i, offset, data) => if i < |cs| then cs[i := Overwritten(cs[i], offset, data.Bytes())] else cs
    case Truncate(i, size) =>
      if i < |cs| then cs[i := if size >= |cs[i]| then cs[i] + Zeros(size - |cs[i]|) else cs[i][..size]] else cs
    case ToEnd(_) => cs
  }

  /** The operation does not put data into a stored tail that the code takes for sparse. */
  ghost predicate Harmless(op: Op, ms: seq<FileModel>, bs: BlockSize, noSparse: bool) {
    match op
    case Append(i, data) => i < |ms| ==>
      || !Misplaces(ms[i], bs, data)
      || forall p | 0 <= p < |ms[i].data| && BlockOf(p, bs) == BlockOf(|ms[i].data|, bs) :: ms[i].data[p] == 0
    case Write(i, offset, data) => i < |ms| ==> WriteHarmless(ms[i], bs, noSparse, offset, data.Bytes())
    case _ => true
  }

  /** Everything that an operation may change, and how. */
  ghost predicate Step(s: State, op: Op, t: State, noSparse: bool) {
    && t.bs == s.bs && Ok(t) && Slack(t) == Slack(s)
    && Legal(op, Sizes(ModelsOf(s)))
    && ModelsOf(t) == Effect(op, ModelsOf(s), s.bs, noSparse)
  }

  lemma OneChanged(s: State, t: State, i: nat, m: FileModel)
    requires i < |s.files| && Kept(s, t, i) && ModelOf(t, i) == m
    ensures ModelsOf(t) == ModelsOf(s)[i := m] && Ok(t) && Slack(t) == Slack(s) && t.bs == s.bs
  {
    hide Ok, Slack, FileContents;
    forall j | 0 <= j < |s.files| ensures ModelsOf(t)[j] == ModelsOf(s)[i := m][j] {
    }
  }

  lemma SameModel(s: State, t: State, i: nat)
    requires i < |s.files| && Relocated(s, t, i)
    ensures |t.files| == |s.files| && Kept(s, t, i) && ModelOf(t, i) == ModelOf(s, i)
  {
    hide Kept, FileContents;
    KeptParts(s, t, i);
  }

  lemma KeptParts(s: State, t: State, i: nat)
    requires i < |s.files| && Kept(s, t, i)
    ensures |t.files| == |s.files|
  {
  }

  lemma OneAdded(s: State, t: State)
    requires t == s.(files := [File(0, 0, {})] + s.files) && Ok(s)
    ensures ModelsOf(t) == [FileModel([], {})] + ModelsOf(s)
  {
    hide Ok, FileBlock, FileByte;
    assert ModelOf(t, 0).data == [];
    forall j | 0 < j < |t.files| ensures ModelOf(t, j) == ModelOf(s, j - 1) {
    }
  }

  /** Each operation of the tree is a step, so that what is said of all runs of steps holds of all runs of the tree. */
  method Perform(fs: FsTree, op: Op)
    requires fs.Valid() && Legal(op, Sizes(ModelsOf(fs.Snap())))
    modifies fs`files, fs`dataOffset, fs.volume, fs.files
    ensures fs.Valid() && Step(old(fs.Snap()), op, fs.Snap(), fs.noSparse)
  {
    hide Values, Ok, Slack, Shaped, Kept, Relocated, ModelOf, Contents, FileContents, Appended, FileWritten, Resized;
    ghost var s := fs.Snap();
    match op {
      case Create =>
        var _ := fs.AddFile();
        OneAdded(s, fs.Snap());
      case Append(i, data) =>
        PosAt(fs.files, i);
        fs.FileAppend(fs.files[i], data);
        OneChanged(s, fs.Snap(), i, Appended(ModelOf(s, i), s.bs, fs.noSparse, data));
      case Write(i, offset, data) =>
        PosAt(fs.files, i);
        fs.FileWrite(fs.files[i], offset, data);
        OneChanged(s, fs.Snap(), i, FileWritten(ModelOf(s, i), s.bs, fs.noSparse, offset, data));
      case Truncate(i, size) =>
        PosAt(fs.files, i);
        fs.FileTruncate(fs.files[i], size);
        OneChanged(s, fs.Snap(), i, Resized(ModelOf(s, i), s.bs, fs.noSparse, size));
      case ToEnd(i) =>
        PosAt(fs.files, i);
        fs.MoveToEnd(fs.files[i]);
        SameModel(s, fs.Snap(), i);
        OneChanged(s, fs.Snap(), i, ModelOf(s, i));
    }
  }

  /* What one step does to the contents. */

  lemma Swapped(ms: seq<FileModel>, i: nat, m: FileModel, c: seq<byte>)
    requires i < |ms|
    ensures Datas(ms[i := m]) == Datas(ms)[i := c] <==> m.data == c
  {
    if m.data == c {
      assert Datas(ms[i := m]) == Datas(ms)[i := c];
    } else {
      assert Datas(ms[i := m])[i] != Datas(ms)[i := c][i];
    }
  }

  /** A step does to the contents what it should exactly if it is harmless. */
  lemma StepExact(s: State, op: Op, t: State, noSparse: bool)
    requires Ok(s) && Step(s, op, t, noSparse)
    ensures Datas(ModelsOf(t)) == Intended(op, Datas(ModelsOf(s))) <==> Harmless(op, ModelsOf(s), s.bs, noSparse)
  {
    hide Ok, Slack, ModelOf, Contents, FileContents, Appended, FileWritten, Resized, Misplaces, WriteHarmless,
      Overwritten, BlockOf, SparseReadsZero, HolesFit;
    var ms, bs := ModelsOf(s), s.bs;
    match op {
      case Create =>
        assert Datas([FileModel([], {})] + ms) == [[]] + Datas(ms);
      case Append(i, data) =>
        InOrder(s, i);
        AppendExact(ms[i], bs, noSparse, data);
        Swapped(ms, i, Appended(ms[i], bs, noSparse, data), ms[i].data + data.Bytes());
      case Write(i, offset, data) =>
        InOrder(s, i);
        WriteExact(ms[i], bs, noSparse, offset, data);
        Swapped(ms, i, FileWritten(ms[i], bs, noSparse, offset, data), Overwritten(ms[i].data, offset, data.Bytes()));
      case Truncate(i, size) =>
        ResizedData(ms[i], bs, noSparse, size);
        var c := if size >= |ms[i].data| then ms[i].data + Zeros(size - |ms[i].data|) else ms[i].data[..size];
        Swapped(ms, i, Resized(ms[i], bs, noSparse, size), c);
      case ToEnd(i) =>
    }
  }

  /* Trees without holes. */

  ghost predicate NoHoles(ms: seq<FileModel>) {
    forall i | 0 <= i < |ms| :: ms[i].sparse == {}
  }

  /** Without holes there is no harm, and with the flag set there never are any. */
  lemma NoHolesHarmless(op: Op, ms: seq<FileModel>, bs: BlockSize)
    requires NoHoles(ms) && Legal(op, Sizes(ms))
    ensures NoHoles(Effect(op, ms, bs, true)) && Harmless(op, ms, bs, true)
  {
    hide Appended, FileWritten, Filled, WriteHarmless, BlockOf, OffsetOf;
    match op {
      case Create =>
      case Append(i, data) =>
        AppendNoHoles(ms[i], bs, data);
      case Write(i, offset, data) =>
        FileWrittenNoHoles(ms[i], bs, offset, data);
      case Truncate(i, size) =>
        FilledNoHoles(ms[i], bs, size);
      case ToEnd(_) =>
    }
  }

  /* Runs. */

  ghost predicate Run(ss: seq<State>, ops: seq<Op>, noSparse: bool) {
    && |ss| == |ops| + 1
    && Ok(ss[0]) && ss[0].files == [] && ss[0].off == 0
    && forall k | 0 <= k < |ops| :: Step(ss[k], ops[k], ss[k + 1], noSparse)
  }

  ghost function IntendedAll(ops: seq<Op>): seq<seq<byte>> {
    if ops == [] then [] else Intended(ops[|ops| - 1], IntendedAll(ops[..|ops| - 1]))
  }

  ghost predicate AllHarmless(ss: seq<State>, ops: seq<Op>, noSparse: bool)
    requires |ss| == |ops| + 1
  {
    forall k | 0 <= k < |ops| :: Harmless(ops[k], ModelsOf(ss[k]), ss[k].bs, noSparse)
  }

  lemma {:induction false} RunOk(ss: seq<State>, ops: seq<Op>, noSparse: bool)
    requires Run(ss, ops, noSparse)
    ensures Ok(ss[|ops|]) && Slack(ss[|ops|]) == 0
  {
    hide Ok, Effect;
    if ops != [] {
      var n := |ops| - 1;
      RunFront(ss, ops, noSparse);
      RunOk(ss[..|ops|], ops[..n], noSparse);
      assert Step(ss[n], ops[n], ss[n + 1], noSparse);
    }
  }

  lemma RunFront(ss: seq<State>, ops: seq<Op>, noSparse: bool)
    requires Run(ss, ops, noSparse) && ops != []
    ensures Run(ss[..|ops|], ops[..|ops| - 1], noSparse)
  {
    hide Ok, Step;
    var tt, pp := ss[..|ops|], ops[..|ops| - 1];
    forall k | 0 <= k < |pp| ensures Step(tt[k], pp[k], tt[k + 1], noSparse) {
      assert Step(ss[k], ops[k], ss[k + 1], noSparse);
    }
  }

  /** After every run, each block below the high-water mark belongs to exactly one file, and no block above to any. */
  lemma RunConserves(ss: seq<State>, ops: seq<Op>, noSparse: bool)
    requires Run(ss, ops, noSparse)
    ensures var s := ss[|ops|];
            && (forall b: nat :: b < s.off <==> Owned(s.files, s.bs, b))
            && (forall b: nat, i: nat, j: nat | i < |s.files| && j < |s.files| &&
                 Owns(s.files[i], s.bs, b) && Owns(s.files[j], s.bs, b) :: i == j)
  {
    hide Ok, Owned, Owns, Slack, Step;
    RunOk(ss, ops, noSparse);
    var s := ss[|ops|];
    NoneLost(s);
    forall b: nat | Owned(s.files, s.bs, b) ensures b < s.off {
      OwnedBelow(s, b);
    }
    forall b: nat, i: nat, j: nat |
      i < |s.files| && j < |s.files| && Owns(s.files[i], s.bs, b) && Owns(s.files[j], s.bs, b)
      ensures i == j
    {
      OneOwner(s, i, j, b);
    }
  }

  /** As long as all steps are harmless, the files hold exactly what was done to each of them. */
  lemma {:induction false} RunExact(ss: seq<State>, ops: seq<Op>, noSparse: bool)
    requires Run(ss, ops, noSparse) && AllHarmless(ss, ops, noSparse)
    ensures Datas(ModelsOf(ss[|ops|])) == IntendedAll(ops)
  {
    hide Ok, Slack, Effect, Harmless, Intended, ModelsOf, Datas;
    if ops == [] {
      NoFiles(ss[0]);
    } else {
      var n := |ops| - 1;
      RunFront(ss, ops, noSparse);
      forall k | 0 <= k < n ensures Harmless(ops[..n][k], ModelsOf(ss[..n + 1][k]), ss[..n + 1][k].bs, noSparse) {
        assert Harmless(ops[k], ModelsOf(ss[k]), ss[k].bs, noSparse);
      }
      RunExact(ss[..n + 1], ops[..n], noSparse);
      RunOk(ss[..n + 1], ops[..n], noSparse);
      StepExact(ss[n], ops[n], ss[n + 1], noSparse);
    }
  }

  lemma NoFiles(s: State)
    requires s.files == []
    ensures Datas(ModelsOf(s)) == [] && NoHoles(ModelsOf(s))
  {
  }

  lemma {:induction false} RunNoHoles(ss: seq<State>, ops: seq<Op>)
    requires Run(ss, ops, true)
    ensures NoHoles(ModelsOf(ss[|ops|])) && AllHarmless(ss, ops, true)
  {
    hide Ok, Slack, Effect, Harmless, Intended, ModelsOf, NoHoles;
    if ops == [] {
      NoFiles(ss[0]);
    } else {
      var n := |ops| - 1;
      RunFront(ss, ops, true);
      RunNoHoles(ss[..n + 1], ops[..n]);
      assert Step(ss[n], ops[n], ss[n + 1], true);
      NoHolesHarmless(ops[n], ModelsOf(ss[n]), ss[n].bs);
      forall k | 0 <= k < |ops| ensures Harmless(ops[k], ModelsOf(ss[k]), ss[k].bs, true) {
        if k < n {
          assert Harmless(ops[..n][k], ModelsOf(ss[..n + 1][k]), ss[..n + 1][k].bs, true);
        }
      }
    }
  }

  /** With the flag that all three file systems set, every run does to the contents just what it should. */
  lemma RunExactNoSparse(ss: seq<State>, ops: seq<Op>)
    requires Run(ss, ops, true)
    ensures Datas(ModelsOf(ss[|ops|])) == IntendedAll(ops)
  {
    hide Run, AllHarmless;
    RunNoHoles(ss, ops);
    RunExact(ss, ops, true);
  }
}
