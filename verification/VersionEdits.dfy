/** Version edits: a builder gathers the deletions and additions of many edits and merges them into
    a new version at once. */
module VersionEdits {
  import opened InternalKeys
  import opened Versions

  /** The files one edit takes out of each level, by number, and the files it puts in. */
  datatype VersionEdit = VersionEdit(deletedFiles: set<(nat, nat)>, newFiles: seq<(nat, File)>)

  /** Insert into an ordered set of files; an equivalent file already there is kept instead. */
  function InsertFile(fs: seq<File>, f: File): (r: seq<File>)
    requires Ordered(fs)
    ensures Ordered(r)
    ensures forall g :: g in r ==> g in fs || g == f
    ensures forall g :: g in fs ==> g in r
    ensures (forall g :: g in fs ==> BySmallestKey(g, f) || BySmallestKey(f, g)) ==> f in r
  {
    if fs == [] then [f]
    else if BySmallestKey(f, fs[0]) then [f] + fs
    else if BySmallestKey(fs[0], f) then
      var rest := InsertFile(fs[1..], f);
      assert forall i :: 0 <= i < |rest| ==> rest[i] in rest;
      [fs[0]] + rest
    else fs
  }

  /** What the builder has gathered for one level. */
  datatype LevelState = LevelState(deleted: set<nat>, added: seq<File>)

  /** The files a level holds once the gathered state is applied to its base. */
  ghost function Live(base: seq<File>, state: LevelState): iset<File> {
    iset f | (f in base || f in state.added) && f.number !in state.deleted
  }

  ghost function FileSet(files: seq<File>): iset<File> {
    iset f | f in files
  }

  ghost function NumbersOf(files: seq<(nat, File)>, level: nat): set<nat> {
    set p | p in files && p.0 == level :: p.1.number
  }

  ghost function FilesOf(files: seq<(nat, File)>, level: nat): iset<File> {
    iset f | (level, f) in files
  }

  ghost function DeletedAt(edit: VersionEdit, level: nat): set<nat> {
    set p | p in edit.deletedFiles && p.0 == level :: p.1
  }

  /** One edit applied to the files of a level: deletions first, then additions. */
  ghost function ApplyOne(files: iset<File>, edit: VersionEdit, level: nat): iset<File> {
    (iset f | f in files && f.number !in DeletedAt(edit, level)) + FilesOf(edit.newFiles, level)
  }

  ghost function ApplyInTurn(files: iset<File>, edits: seq<VersionEdit>, level: nat): iset<File> {
    if edits == [] then files
    else ApplyOne(ApplyInTurn(files, edits[..|edits| - 1], level), edits[|edits| - 1], level)
  }

  class Builder {
    const base: Version
    var levels: seq<LevelState>

    ghost predicate Inv()
      reads this
    {
      && |base| == NUM_LEVELS && |levels| == NUM_LEVELS
      && forall l :: 0 <= l < NUM_LEVELS ==> Ordered(base[l]) && Ordered(levels[l].added)
    }

    constructor (v: Version)
      requires |v| == NUM_LEVELS && forall l :: 0 <= l < NUM_LEVELS ==> Ordered(v[l])
      ensures Inv() && base == v
      ensures forall l :: 0 <= l < NUM_LEVELS ==> levels[l] == LevelState({}, [])
    {
      base := v;
      levels := seq(NUM_LEVELS, _ => LevelState({}, []));
    }

    /** Every number the edit adds to a level is new to it, and added once. */
    ghost predicate AddsNew(edit: VersionEdit)
      requires Inv()
      reads this
    {
      && (forall i, j :: 0 <= i < j < |edit.newFiles| && edit.newFiles[i].0 == edit.newFiles[j].0 ==>
            edit.newFiles[i].1.number != edit.newFiles[j].1.number)
      && (forall l, f, g :: 0 <= l < NUM_LEVELS && (l, f) in edit.newFiles && (g in base[l] || g in levels[l].added) ==>
            g.number != f.number)
    }

    ghost predicate LevelsInRange(edit: VersionEdit) {
      && (forall p :: p in edit.deletedFiles ==> p.0 < NUM_LEVELS)
      && (forall i :: 0 <= i < |edit.newFiles| ==> edit.newFiles[i].0 < NUM_LEVELS)
    }

    /** Gather one edit: its deletions, then its additions, which lift the deletion of their number. */
    method Apply(edit: VersionEdit)
      requires Inv() && AddsNew(edit) && LevelsInRange(edit)
      modifies this
      ensures Inv()
      ensures forall l :: 0 <= l < NUM_LEVELS ==>
          levels[l].deleted == old(levels)[l].deleted + DeletedAt(edit, l) - NumbersOf(edit.newFiles, l)
      ensures forall l, f :: 0 <= l < NUM_LEVELS ==>
          (f in levels[l].added <==> f in old(levels)[l].added || (l, f) in edit.newFiles)
    {
      hide Ordered, BySmallestKey, Gathered;
      ApplyDeletions(edit);
      ghost var levels0 := levels;
      GatheredNothing(levels0);
      for i := 0 to |edit.newFiles|
        invariant Inv() && Gathered(levels0, levels, edit.newFiles[..i])
      {
        var p := edit.newFiles[i];
        assert edit.newFiles[..i + 1] == edit.newFiles[..i] + [p];
        ghost var before := levels;
        NewNumber(edit, levels0, i);
        AddFile(p.0, p.1);
        GatheredStep(levels0, before, levels, edit.newFiles[..i], p);
      }
      assert edit.newFiles[..|edit.newFiles|] == edit.newFiles;
      GatheredAll(levels0, levels, edit.newFiles);
    }

    lemma NewNumber(edit: VersionEdit, levels0: seq<LevelState>, i: nat)
      requires i < |edit.newFiles| && LevelsInRange(edit) && Gathered(levels0, levels, edit.newFiles[..i])
      requires forall i, j :: 0 <= i < j < |edit.newFiles| && edit.newFiles[i].0 == edit.newFiles[j].0 ==>
          edit.newFiles[i].1.number != edit.newFiles[j].1.number
      requires forall l, f, g :: 0 <= l < |levels0| && (l, f) in edit.newFiles && g in levels0[l].added ==> g.number != f.number
      ensures forall g :: g in levels[edit.newFiles[i].0].added ==> g.number != edit.newFiles[i].1.number
    {
      var p := edit.newFiles[i];
      assert p in edit.newFiles && p == (p.0, p.1);
      forall g | g in levels[p.0].added
        ensures g.number != p.1.number
      {
        if g !in levels0[p.0].added {
          var j :| 0 <= j < i && edit.newFiles[..i][j] == (p.0, g);
        }
      }
    }

    method AddFile(l: nat, f: File)
      requires Inv() && l < NUM_LEVELS && forall g :: g in levels[l].added ==> g.number != f.number
      modifies this
      ensures Inv()
      ensures levels[l].deleted == old(levels)[l].deleted - {f.number}
      ensures forall g :: g in levels[l].added <==> g in old(levels)[l].added || g == f
      ensures forall k :: 0 <= k < NUM_LEVELS && k != l ==> levels[k] == old(levels)[k]
    {
      forall g | g in levels[l].added
        ensures BySmallestKey(g, f) || BySmallestKey(f, g)
      {
      }
      levels := levels[l := LevelState(levels[l].deleted - {f.number}, InsertFile(levels[l].added, f))];
    }

    method ApplyDeletions(edit: VersionEdit)
      requires Inv() && LevelsInRange(edit)
      modifies this
      ensures Inv()
      ensures forall l :: 0 <= l < NUM_LEVELS ==>
          && levels[l].added == old(levels)[l].added
          && levels[l].deleted == old(levels)[l].deleted + DeletedAt(edit, l)
    {
      var del := edit.deletedFiles;
      ghost var seen: set<(nat, nat)> := {};
      while del != {}
        invariant Inv() && seen + del == edit.deletedFiles && seen !! del
        invariant forall l :: 0 <= l < NUM_LEVELS ==>
            && levels[l].added == old(levels)[l].added
            && levels[l].deleted == old(levels)[l].deleted + set p | p in seen && p.0 == l :: p.1
        decreases del
      {
        var p :| p in del;
        levels := levels[p.0 := LevelState(levels[p.0].deleted + {p.1}, levels[p.0].added)];
        seen := seen + {p};
        del := del - {p};
      }
      assert seen == edit.deletedFiles;
    }

    /** Merge the base files of a level with the added ones, in order, without the deleted ones. */
    method SaveLevel(l: nat) returns (files: seq<File>)
      requires Inv() && l < NUM_LEVELS && Apart(base[l], levels[l].added)
      ensures Ordered(files)
      ensures forall f :: f in files <==> f in Live(base[l], levels[l])
    {
      hide BySmallestKey, Ordered, Before;
      var baseFiles, added, deleted := base[l], levels[l].added, levels[l].deleted;
      files := [];
      var b := 0;
      NothingBefore(baseFiles, added);
      for a := 0 to |added|
        invariant b <= |baseFiles| && Ordered(files)
        invariant forall f :: f in files <==> (f in baseFiles[..b] || f in added[..a]) && f.number !in deleted
        invariant Before(files, baseFiles, b) && Before(files, added, a)
      {
        // All base files up to the added one
        while b < |baseFiles| && !BySmallestKey(added[a], baseFiles[b])
          invariant b <= |baseFiles| && Ordered(files)
          invariant forall f :: f in files <==> (f in baseFiles[..b] || f in added[..a]) && f.number !in deleted
          invariant Before(files, baseFiles, b) && Before(files, added, a)
        {
          assert baseFiles[..b + 1] == baseFiles[..b] + [baseFiles[b]];
          TakeSmaller(baseFiles, b, added, a);
          BeforeHead(files, baseFiles, b);
          files := MaybeAddFile(files, baseFiles[b], deleted, baseFiles, b + 1, added, a);
          b := b + 1;
        }
        assert added[..a + 1] == added[..a] + [added[a]];
        TakeSmaller(added, a, baseFiles, b);
        BeforeHead(files, added, a);
        files := MaybeAddFile(files, added[a], deleted, baseFiles, b, added, a + 1);
      }
      while b < |baseFiles|
        invariant b <= |baseFiles| && Ordered(files)
        invariant forall f :: f in files <==> (f in baseFiles[..b] || f in added) && f.number !in deleted
        invariant Before(files, baseFiles, b) && Before(files, added, |added|)
      {
        assert baseFiles[..b + 1] == baseFiles[..b] + [baseFiles[b]];
        TakeSmaller(baseFiles, b, added, |added|);
        BeforeHead(files, baseFiles, b);
        files := MaybeAddFile(files, baseFiles[b], deleted, baseFiles, b + 1, added, |added|);
        b := b + 1;
      }
      assert baseFiles[..b] == baseFiles;
      assert added[..|added|] == added;
    }

    /** Every level, with its deletions and additions. */
    method SaveTo() returns (v: Version)
      requires Inv()
      requires forall l :: 0 <= l < NUM_LEVELS ==> Apart(base[l], levels[l].added)
      ensures |v| == NUM_LEVELS
      ensures forall l :: 0 <= l < NUM_LEVELS ==>
          Ordered(v[l]) && forall f :: f in v[l] <==> f in Live(base[l], levels[l])
    {
      v := [];
      for l := 0 to NUM_LEVELS
        invariant |v| == l
        invariant forall k :: 0 <= k < l ==>
            Ordered(v[k]) && forall f :: f in v[k] <==> f in Live(base[k], levels[k])
      {
        var files := SaveLevel(l);
        v := v + [files];
      }
    }
  }

  /** The level states after the given files were added to them. */
  ghost predicate Gathered(before: seq<LevelState>, after: seq<LevelState>, adds: seq<(nat, File)>) {
    && |before| == |after| == NUM_LEVELS
    && (forall l :: 0 <= l < NUM_LEVELS ==> after[l].deleted == before[l].deleted - NumbersOf(adds, l))
    && (forall l, f :: 0 <= l < NUM_LEVELS ==>
          (f in after[l].added <==> f in before[l].added || (l, f) in adds))
  }

  lemma GatheredNothing(levels: seq<LevelState>)
    requires |levels| == NUM_LEVELS
    ensures Gathered(levels, levels, [])
  {
  }

  lemma GatheredAll(before: seq<LevelState>, after: seq<LevelState>, adds: seq<(nat, File)>)
    requires Gathered(before, after, adds)
    ensures |before| == |after| == NUM_LEVELS
    ensures forall l :: 0 <= l < NUM_LEVELS ==> after[l].deleted == before[l].deleted - NumbersOf(adds, l)
    ensures forall l, f :: 0 <= l < NUM_LEVELS ==>
        (f in after[l].added <==> f in before[l].added || (l, f) in adds)
  {
  }

  lemma GatheredStep(before: seq<LevelState>, mid: seq<LevelState>, after: seq<LevelState>,
                     adds: seq<(nat, File)>, p: (nat, File))
    requires Gathered(before, mid, adds) && |after| == NUM_LEVELS && p.0 < NUM_LEVELS
    requires after[p.0].deleted == mid[p.0].deleted - {p.1.number}
    requires forall g :: g in after[p.0].added <==> g in mid[p.0].added || g == p.1
    requires forall k :: 0 <= k < NUM_LEVELS && k != p.0 ==> after[k] == mid[k]
    ensures Gathered(before, after, adds + [p])
  {
    forall l | 0 <= l < NUM_LEVELS
      ensures after[l].deleted == before[l].deleted - NumbersOf(adds + [p], l)
    {
      assert l == p.0 ==> p in adds + [p];
    }
  }

  /** No file of one sequence is equivalent to a file of the other. */
  ghost predicate Apart(fs: seq<File>, gs: seq<File>) {
    forall f, g :: f in fs && g in gs ==> BySmallestKey(f, g) || BySmallestKey(g, f)
  }

  /** Everything in `files` comes before everything in `fs` from position i on. */
  ghost predicate Before(files: seq<File>, fs: seq<File>, i: nat) {
    forall f, j :: f in files && i <= j < |fs| ==> BySmallestKey(f, fs[j])
  }

  lemma NothingBefore(fs: seq<File>, gs: seq<File>)
    ensures Before([], fs, 0) && Before([], gs, 0) && Ordered([])
  {
  }

  /** The head of one ordered sequence that is not after the head of the other comes before the rest
      of both. */
  lemma TakeSmaller(fs: seq<File>, i: nat, gs: seq<File>, j: nat)
    requires Ordered(fs) && Ordered(gs) && (Apart(fs, gs) || Apart(gs, fs)) && i < |fs|
    requires j < |gs| ==> BySmallestKey(fs[i], gs[j]) || !BySmallestKey(gs[j], fs[i])
    ensures Before([fs[i]], fs, i + 1) && Before([fs[i]], gs, j)
  {
    forall k | j <= k < |gs|
      ensures BySmallestKey(fs[i], gs[k])
    {
      assert BySmallestKey(fs[i], gs[j]);
    }
  }

  lemma BeforeHead(files: seq<File>, fs: seq<File>, i: nat)
    requires Before(files, fs, i) && i < |fs|
    ensures Before(files, fs, i + 1) && forall f :: f in files ==> BySmallestKey(f, fs[i])
  {
  }

  method MaybeAddFile(files: seq<File>, f: File, deleted: set<nat>,
                      ghost fs: seq<File>, ghost i: nat, ghost gs: seq<File>, ghost j: nat)
    returns (r: seq<File>)
    requires Ordered(files) && forall g :: g in files ==> BySmallestKey(g, f)
    requires Before(files, fs, i) && Before(files, gs, j) && Before([f], fs, i) && Before([f], gs, j)
    ensures r == if f.number in deleted then files else files + [f]
    ensures Ordered(r) && Before(r, fs, i) && Before(r, gs, j)
  {
    hide BySmallestKey;
    assert f in [f];
    r := if f.number in deleted then files else files + [f];
  }

  /** The state gathered from one more edit makes live what applying the edit to the live files does. */
  lemma ApplyIsOne(base: seq<File>, state: LevelState, state': LevelState, edit: VersionEdit, level: nat)
    requires state'.deleted == state.deleted + DeletedAt(edit, level) - NumbersOf(edit.newFiles, level)
    requires forall f :: f in state'.added <==> f in state.added || (level, f) in edit.newFiles
    requires forall f, g :: (level, f) in edit.newFiles && (g in base || g in state.added) ==> g.number != f.number
    ensures Live(base, state') == ApplyOne(Live(base, state), edit, level)
  {
    forall f
      ensures f in Live(base, state') <==> f in ApplyOne(Live(base, state), edit, level)
    {
      if (level, f) in edit.newFiles {
        assert f.number in NumbersOf(edit.newFiles, level);
      } else if f.number in NumbersOf(edit.newFiles, level) {
        var p :| p in edit.newFiles && p.0 == level && p.1.number == f.number;
        assert (level, p.1) in edit.newFiles;
      }
    }
  }

  /** Numbers an edit adds to a level are used by none of the base and by no earlier edit. */
  ghost predicate AddsFresh(base: Version, edits: seq<VersionEdit>)
    requires |base| == NUM_LEVELS
  {
    && (forall k, i, j :: 0 <= k < |edits| && 0 <= i < j < |edits[k].newFiles| ==>
          edits[k].newFiles[i].0 != edits[k].newFiles[j].0 || edits[k].newFiles[i].1.number != edits[k].newFiles[j].1.number)
    && (forall k, m, l, f, g :: 0 <= m < k < |edits| && (l, f) in edits[k].newFiles && (l, g) in edits[m].newFiles ==>
          f.number != g.number)
    && (forall k, l, f, g :: 0 <= k < |edits| && 0 <= l < NUM_LEVELS && (l, f) in edits[k].newFiles && g in base[l] ==>
          f.number != g.number)
  }

  /** Gathering edits and merging once gives the same version as applying the edits one by one, when
      no file number is added twice to one level. */
  method ApplyEdits(base: Version, edits: seq<VersionEdit>) returns (v: Version)
    requires |base| == NUM_LEVELS && forall l :: 0 <= l < NUM_LEVELS ==> Ordered(base[l])
    requires AddsFresh(base, edits)
    requires forall k :: 0 <= k < |edits| ==>
        && (forall p :: p in edits[k].deletedFiles ==> p.0 < NUM_LEVELS)
        && (forall i :: 0 <= i < |edits[k].newFiles| ==> edits[k].newFiles[i].0 < NUM_LEVELS)
    ensures |v| == NUM_LEVELS
    ensures forall l :: 0 <= l < NUM_LEVELS ==> Ordered(v[l])
    ensures forall l :: 0 <= l < NUM_LEVELS ==>
        FileSet(v[l]) == ApplyInTurn(FileSet(base[l]), edits, l)
  {
    hide Ordered, BySmallestKey;
    var builder := new Builder(base);
    for k := 0 to |edits|
      invariant builder.Inv() && builder.base == base
      invariant forall l :: 0 <= l < NUM_LEVELS ==>
          Live(base[l], builder.levels[l]) == ApplyInTurn(FileSet(base[l]), edits[..k], l)
      invariant forall l, f :: 0 <= l < NUM_LEVELS && f in builder.levels[l].added ==>
          exists m :: 0 <= m < k && (l, f) in edits[m].newFiles
    {
      assert edits[..k + 1][..k] == edits[..k];
      ghost var before := builder.levels;
      builder.Apply(edits[k]);
      forall l | 0 <= l < NUM_LEVELS
        ensures Live(base[l], builder.levels[l]) == ApplyInTurn(FileSet(base[l]), edits[..k + 1], l)
      {
        ApplyIsOne(base[l], before[l], builder.levels[l], edits[k], l);
      }
    }
    assert edits[..|edits|] == edits;
    forall l | 0 <= l < NUM_LEVELS
      ensures Apart(base[l], builder.levels[l].added)
    {
      NumbersDifferApart(base[l], builder.levels[l].added);
    }
    v := builder.SaveTo();
    forall l | 0 <= l < NUM_LEVELS
      ensures FileSet(v[l]) == ApplyInTurn(FileSet(base[l]), edits, l)
    {
      assert FileSet(v[l]) == Live(base[l], builder.levels[l]);
    }
  }

  lemma NumbersDifferApart(fs: seq<File>, gs: seq<File>)
    requires forall f, g :: f in fs && g in gs ==> f.number != g.number
    ensures Apart(fs, gs)
  {
  }
}
