/**
 * sort_files_by_extension: every regular file met by the directory walk is
 * moved into `<root>/<extension>`, renamed `name_k.ext` with the smallest
 * free k when its name is taken there. The file system is a set of file
 * paths and a set of directory paths; the walk is given as its listing.
 */
module FileSorter {
  import opened Wrappers
  import opened PathText

  /** The parts of the file system the sorter looks at. */
  datatype Fs = Fs(files: set<Path>, dirs: set<Path>)

  /** One directory the walk visits and the file names listed in it. */
  datatype WalkStep = WalkStep(dir: Path, names: seq<string>)

  /** One file name, with the directory it was listed in. */
  datatype Entry = Entry(dir: Path, name: string)

  predicate Exists(fs: Fs, p: Path)
  {
    p in fs.files || p in fs.dirs
  }

  /** No path is both a file and a directory. */
  predicate Consistent(fs: Fs)
  {
    fs.files !! fs.dirs
  }

  predicate Hidden(name: string)
  {
    |name| > 0 && name[0] == Dot
  }

  // ---------------------------------------------------------------------
  // The target path: the name itself, then name_1.ext, name_2.ext, ...
  // ---------------------------------------------------------------------

  /** The k-th path tried for name inside dir. */
  function Candidate(dir: Path, name: string, k: nat): Path
  {
    if k == 0 then Join(dir, name) else Join(dir, Numbered(name, k))
  }

  lemma CandidateInjective(dir: Path, name: string, j: nat, k: nat)
    ensures Candidate(dir, name, j) == Candidate(dir, name, k) <==> j == k
  {
    if j != k {
      NumberedInjective(name, j, k);
      NumberedAbsolute(name, j);
      NumberedAbsolute(name, k);
      if j == 0 {
        JoinInjective(dir, name, Numbered(name, k));
      } else if k == 0 {
        JoinInjective(dir, Numbered(name, j), name);
      } else {
        JoinInjective(dir, Numbered(name, j), Numbered(name, k));
      }
    }
  }

  /** The first n paths tried. */
  ghost function Tried(dir: Path, name: string, n: nat): set<Path>
  {
    if n == 0 then {} else Tried(dir, name, n - 1) + {Candidate(dir, name, n - 1)}
  }

  /** No later candidate is among the first n. */
  lemma {:induction false} TriedExcludesLater(dir: Path, name: string, n: nat, m: nat)
    requires n <= m
    ensures Candidate(dir, name, m) !in Tried(dir, name, n)
  {
    if n > 0 {
      TriedExcludesLater(dir, name, n - 1, m);
      CandidateInjective(dir, name, n - 1, m);
    }
  }

  lemma {:induction false} TriedSize(dir: Path, name: string, n: nat)
    ensures |Tried(dir, name, n)| == n
  {
    if n > 0 {
      TriedSize(dir, name, n - 1);
      TriedExcludesLater(dir, name, n - 1, n - 1);
    }
  }

  lemma {:induction false} TriedWithin(taken: set<Path>, dir: Path, name: string, n: nat)
    requires forall k: nat :: k < n ==> Candidate(dir, name, k) in taken
    ensures Tried(dir, name, n) <= taken
  {
    if n > 0 {
      TriedWithin(taken, dir, name, n - 1);
    }
  }

  /** Pigeonhole: only |taken| paths can be taken, so the counter loop stops. */
  lemma CandidatesOccupy(taken: set<Path>, dir: Path, name: string, n: nat)
    requires forall k: nat :: k < n ==> Candidate(dir, name, k) in taken
    ensures n <= |taken|
  {
    TriedSize(dir, name, n);
    TriedWithin(taken, dir, name, n);
    var tried := Tried(dir, name, n);
    assert taken == tried + (taken - tried);
    assert |taken| == |tried| + |taken - tried|;
  }

  /** The smallest k >= from whose candidate is free, given that those below from are taken. */
  function FirstFree(taken: set<Path>, dir: Path, name: string, from: nat): (k: nat)
    requires forall j: nat :: j < from ==> Candidate(dir, name, j) in taken
    ensures from <= k
    ensures Candidate(dir, name, k) !in taken
    ensures forall j: nat :: j < k ==> Candidate(dir, name, j) in taken
    decreases |taken| - from
  {
    CandidatesOccupy(taken, dir, name, from);
    if Candidate(dir, name, from) !in taken then from
    else
      CandidatesOccupy(taken, dir, name, from + 1);
      FirstFree(taken, dir, name, from + 1)
  }

  /** Where the file name goes in dir: the first candidate that does not exist. */
  function TargetPath(fs: Fs, dir: Path, name: string): Path
  {
    Candidate(dir, name, FirstFree(fs.files + fs.dirs, dir, name, 0))
  }

  /** The target does not exist, and every candidate before it does. */
  lemma TargetPathFirstFree(fs: Fs, dir: Path, name: string)
    ensures !Exists(fs, TargetPath(fs, dir, name))
    ensures exists k: nat ::
      TargetPath(fs, dir, name) == Candidate(dir, name, k) && forall j: nat :: j < k ==> Exists(fs, Candidate(dir, name, j))
  {
    var k := FirstFree(fs.files + fs.dirs, dir, name, 0);
    assert TargetPath(fs, dir, name) == Candidate(dir, name, k);
  }

  // ---------------------------------------------------------------------
  // One listed file
  // ---------------------------------------------------------------------

  datatype StepResult =
    | Skipped
    | Moved(fs: Fs, target: Path)
    | Failed(fs: Fs)

  /**
   * One iteration of the inner loop. Hidden names (when asked), paths that
   * are not files now and names without extension are skipped; a file
   * standing where the extension directory should be, or a move the
   * system refuses, ends the run.
   */
  function Step(fs: Fs, root: Path, ignoreHidden: bool, denied: set<Path>, e: Entry): StepResult
  {
    if ignoreHidden && Hidden(e.name) then Skipped
    else
      var src := Join(e.dir, e.name);
      if src !in fs.files then Skipped
      else
        var ext := Extension(e.name);
        if ext == [] then Skipped
        else
          var targetDir := Join(root, ext);
          if targetDir in fs.files then Failed(fs)
          else
            var made := Fs(fs.files, fs.dirs + {targetDir});
            var target := TargetPath(made, targetDir, e.name);
            if src in denied then Failed(made)
            else Moved(Fs(made.files - {src} + {target}, made.dirs), target)
  }

  /** Exactly these files are skipped; the others are moved or end the run. */
  lemma SkipRules(fs: Fs, root: Path, ignoreHidden: bool, denied: set<Path>, e: Entry)
    ensures Step(fs, root, ignoreHidden, denied, e) == Skipped <==>
      (ignoreHidden && Hidden(e.name)) || Join(e.dir, e.name) !in fs.files || Extension(e.name) == []
  {
  }

  /** Only file names are checked for being hidden: the flag changes nothing for other names. */
  lemma HiddenOnlyByName(fs: Fs, root: Path, denied: set<Path>, e: Entry)
    requires !Hidden(e.name)
    ensures Step(fs, root, true, denied, e) == Step(fs, root, false, denied, e)
  {
  }

  /**
   * A move happens only for a visible-enough file with an extension; it
   * creates root/<extension> and puts the file there at the first free
   * candidate, taking it out of its old place.
   */
  lemma StepMoved(fs: Fs, root: Path, ignoreHidden: bool, denied: set<Path>, e: Entry)
    requires Step(fs, root, ignoreHidden, denied, e).Moved?
    ensures var r := Step(fs, root, ignoreHidden, denied, e);
      var src := Join(e.dir, e.name);
      var targetDir := Join(root, Extension(e.name));
      && !(ignoreHidden && Hidden(e.name))
      && src in fs.files && src !in denied
      && Extension(e.name) != [] && targetDir !in fs.files
      && r.target == TargetPath(Fs(fs.files, fs.dirs + {targetDir}), targetDir, e.name)
      && r.fs == Fs(fs.files - {src} + {r.target}, fs.dirs + {targetDir})
  {
  }

  /** The target of a move did not exist before, and is not the new directory itself. */
  lemma StepTargetFresh(fs: Fs, root: Path, ignoreHidden: bool, denied: set<Path>, e: Entry)
    requires Step(fs, root, ignoreHidden, denied, e).Moved?
    ensures var r := Step(fs, root, ignoreHidden, denied, e);
      !Exists(fs, r.target) && r.target != Join(root, Extension(e.name)) && r.target in r.fs.files
  {
    StepMoved(fs, root, ignoreHidden, denied, e);
    var targetDir := Join(root, Extension(e.name));
    TargetPathFirstFree(Fs(fs.files, fs.dirs + {targetDir}), targetDir, e.name);
  }

  /** A file already sitting at its target collides with itself and is renamed. */
  lemma SelfCollisionRenamed(fs: Fs, root: Path, denied: set<Path>, e: Entry, ignoreHidden: bool)
    requires Step(fs, root, ignoreHidden, denied, e).Moved?
    requires Join(e.dir, e.name) == Join(Join(root, Extension(e.name)), e.name)
    ensures Step(fs, root, ignoreHidden, denied, e).target != Join(e.dir, e.name)
    ensures exists k: nat ::
      (k >= 1 && Step(fs, root, ignoreHidden, denied, e).target == Join(Join(root, Extension(e.name)), Numbered(e.name, k)))
  {
    StepMoved(fs, root, ignoreHidden, denied, e);
    StepTargetFresh(fs, root, ignoreHidden, denied, e);
    var targetDir := Join(root, Extension(e.name));
    var made := Fs(fs.files, fs.dirs + {targetDir});
    TargetPathFirstFree(made, targetDir, e.name);
    var k: nat :| TargetPath(made, targetDir, e.name) == Candidate(targetDir, e.name, k);
    assert k != 0;
  }

  /** Every step keeps files and directories apart and keeps the number of files. */
  lemma StepPreserves(fs: Fs, root: Path, ignoreHidden: bool, denied: set<Path>, e: Entry)
    requires Consistent(fs)
    ensures match Step(fs, root, ignoreHidden, denied, e)
      case Skipped => true
      case Moved(fs', _) => Consistent(fs') && |fs'.files| == |fs.files| && fs.dirs <= fs'.dirs
      case Failed(fs') => Consistent(fs') && fs'.files == fs.files && fs.dirs <= fs'.dirs
  {
    var r := Step(fs, root, ignoreHidden, denied, e);
    if r.Moved? {
      StepMoved(fs, root, ignoreHidden, denied, e);
      StepTargetFresh(fs, root, ignoreHidden, denied, e);
      var src := Join(e.dir, e.name);
      assert |fs.files - {src}| == |fs.files| - 1;
    }
  }

  // ---------------------------------------------------------------------
  // The walk
  // ---------------------------------------------------------------------

  /** The state of a run: the file system, the moved_files list, and whether an error stopped it. */
  datatype Run = Run(fs: Fs, moved: seq<Path>, failed: bool)

  /** A step function: what one listed file does to the file system. */
  type Stepper = (Fs, Entry) -> StepResult

  /** The step of one call, with its root, flag and refused moves fixed for the whole walk. */
  function Sorter(root: Path, ignoreHidden: bool, denied: set<Path>): Stepper
  {
    (fs: Fs, e: Entry) => Step(fs, root, ignoreHidden, denied, e)
  }

  function Apply(r: Run, step: Stepper, e: Entry): Run
  {
    if r.failed then r
    else match step(r.fs, e)
      case Skipped => r
      case Moved(fs, target) => Run(fs, r.moved + [target], false)
      case Failed(fs) => Run(fs, r.moved, true)
  }

  function Walk(r: Run, step: Stepper, es: seq<Entry>): Run
  {
    if es == [] then r
    else Apply(Walk(r, step, es[..|es| - 1]), step, es[|es| - 1])
  }

  /** The entries of one directory, in the order its names are listed. */
  function EntriesOf(w: WalkStep): (es: seq<Entry>)
    ensures |es| == |w.names|
    decreases |w.names|
  {
    if w.names == [] then []
    else EntriesOf(WalkStep(w.dir, w.names[..|w.names| - 1])) + [Entry(w.dir, w.names[|w.names| - 1])]
  }

  lemma {:induction false} EntriesAt(w: WalkStep, k: nat)
    requires k < |w.names|
    ensures EntriesOf(w)[k] == Entry(w.dir, w.names[k])
    decreases |w.names|
  {
    var init := WalkStep(w.dir, w.names[..|w.names| - 1]);
    if k < |w.names| - 1 {
      EntriesAt(init, k);
      assert EntriesOf(w) == EntriesOf(init) + [Entry(w.dir, w.names[|w.names| - 1])];
    }
  }

  /** The files of the walk in the order the two loops meet them. */
  function Flatten(walk: seq<WalkStep>): seq<Entry>
  {
    if walk == [] then [] else Flatten(walk[..|walk| - 1]) + EntriesOf(walk[|walk| - 1])
  }

  /** The whole call: None for an invalid root or after an error, else the moved_files list. */
  function SortFiles(fs: Fs, root: Path, ignoreHidden: bool, denied: set<Path>, walk: seq<WalkStep>): (Fs, Option<seq<Path>>)
  {
    if root !in fs.dirs then (fs, None)
    else
      var r := Walk(Run(fs, [], false), Sorter(root, ignoreHidden, denied), Flatten(walk));
      (r.fs, if r.failed then None else Some(r.moved))
  }

  /** Once a run has failed, nothing later changes it: the function returns at the first error. */
  lemma {:induction false} FailureStops(r: Run, step: Stepper, es: seq<Entry>, more: seq<Entry>)
    requires Walk(r, step, es).failed
    ensures Walk(r, step, es + more) == Walk(r, step, es)
  {
    if more == [] {
      assert es + more == es;
    } else {
      FailureStops(r, step, es, more[..|more| - 1]);
      assert (es + more)[..|es + more| - 1] == es + more[..|more| - 1];
    }
  }

  /** The run keeps the file system consistent and never loses or gains a file. */
  lemma {:induction false} WalkPreserves(r: Run, root: Path, ignoreHidden: bool, denied: set<Path>, es: seq<Entry>)
    requires Consistent(r.fs)
    ensures var r' := Walk(r, Sorter(root, ignoreHidden, denied), es);
      Consistent(r'.fs) && |r'.fs.files| == |r.fs.files| && r.fs.dirs <= r'.fs.dirs
      && r.moved <= r'.moved
  {
    if es != [] {
      var before := Walk(r, Sorter(root, ignoreHidden, denied), es[..|es| - 1]);
      WalkPreserves(r, root, ignoreHidden, denied, es[..|es| - 1]);
      if !before.failed {
        StepPreserves(before.fs, root, ignoreHidden, denied, es[|es| - 1]);
      }
    }
  }

  predicate NoDuplicates(s: seq<Path>)
  {
    forall i, j :: 0 <= i < j < |s| ==> s[i] != s[j]
  }

  /** A listed file whose path is one the run already moved something to. */
  predicate Revisits(es: seq<Entry>, moved: seq<Path>)
  {
    exists e :: e in es && Join(e.dir, e.name) in moved
  }

  /** Every path in moved_files is a file of the current state, and none is listed twice. */
  predicate MovedKept(r: Run)
  {
    NoDuplicates(r.moved) && forall t :: t in r.moved ==> t in r.fs.files
  }

  /** A step only appends to moved_files. */
  lemma ApplyExtends(r: Run, step: Stepper, e: Entry)
    ensures r.moved <= Apply(r, step, e).moved
  {
  }

  /** A failed step leaves the files where they were. */
  lemma FailedKeepsFiles(fs: Fs, root: Path, ignoreHidden: bool, denied: set<Path>, e: Entry)
    requires Step(fs, root, ignoreHidden, denied, e).Failed?
    ensures Step(fs, root, ignoreHidden, denied, e).fs.files == fs.files
  {
  }

  /** A move appends a path that did not exist, and takes away only the source. */
  lemma MoveKeeps(r: Run, root: Path, ignoreHidden: bool, denied: set<Path>, e: Entry)
    requires MovedKept(r) && !r.failed
    requires Join(e.dir, e.name) !in r.moved
    requires Step(r.fs, root, ignoreHidden, denied, e).Moved?
    ensures MovedKept(Apply(r, Sorter(root, ignoreHidden, denied), e))
  {
    var s := Step(r.fs, root, ignoreHidden, denied, e);
    StepMoved(r.fs, root, ignoreHidden, denied, e);
    StepTargetFresh(r.fs, root, ignoreHidden, denied, e);
    assert s.target !in r.moved;
    var r' := Run(s.fs, r.moved + [s.target], false);
    assert Apply(r, Sorter(root, ignoreHidden, denied), e) == r';
    forall t | t in r'.moved ensures t in r'.fs.files {
      if t != s.target {
        assert t in r.moved;
      }
    }
  }

  /** A step on a file not moved before keeps moved_files distinct and in place. */
  lemma ApplyKeeps(r: Run, root: Path, ignoreHidden: bool, denied: set<Path>, e: Entry)
    requires MovedKept(r)
    requires Join(e.dir, e.name) !in r.moved
    ensures MovedKept(Apply(r, Sorter(root, ignoreHidden, denied), e))
  {
    if !r.failed {
      var s := Step(r.fs, root, ignoreHidden, denied, e);
      if s.Moved? {
        MoveKeeps(r, root, ignoreHidden, denied, e);
      } else if s.Failed? {
        FailedKeepsFiles(r.fs, root, ignoreHidden, denied, e);
      }
    }
  }

  /**
   * moved_files repeats a path only when the walk lists, as a file to sort,
   * a path the run had already moved a file to; otherwise every moved file
   * is still where the run put it.
   */
  lemma {:induction false} MovedDistinct(fs: Fs, root: Path, ignoreHidden: bool, denied: set<Path>, es: seq<Entry>)
    requires !Revisits(es, Walk(Run(fs, [], false), Sorter(root, ignoreHidden, denied), es).moved)
    ensures MovedKept(Walk(Run(fs, [], false), Sorter(root, ignoreHidden, denied), es))
  {
    if es != [] {
      var start := Run(fs, [], false);
      var init, e := es[..|es| - 1], es[|es| - 1];
      var before := Walk(start, Sorter(root, ignoreHidden, denied), init);
      ApplyExtends(before, Sorter(root, ignoreHidden, denied), e);
      assert e in es;
      assert !Revisits(init, before.moved) by {
        forall e' | e' in init ensures Join(e'.dir, e'.name) !in before.moved {
          assert e' in es;
        }
      }
      MovedDistinct(fs, root, ignoreHidden, denied, init);
      ApplyKeeps(before, root, ignoreHidden, denied, e);
    }
  }

  // ---------------------------------------------------------------------
  // The walk, flattened
  // ---------------------------------------------------------------------

  /** The entries met up to and including step i. */
  lemma FlattenSnoc(walk: seq<WalkStep>, i: nat)
    requires i < |walk|
    ensures Flatten(walk[..i + 1]) == Flatten(walk[..i]) + EntriesOf(walk[i])
  {
    assert walk[..i + 1][..i] == walk[..i];
  }

  /** Meeting name j of a directory applies one more step. */
  lemma WalkNext(r: Run, step: Stepper, before: seq<Entry>, w: WalkStep, j: nat)
    requires j < |w.names|
    ensures Walk(r, step, before + EntriesOf(w)[..j + 1])
         == Apply(Walk(r, step, before + EntriesOf(w)[..j]), step, Entry(w.dir, w.names[j]))
  {
    EntriesAt(w, j);
    var done := before + EntriesOf(w)[..j];
    assert before + EntriesOf(w)[..j + 1] == done + [Entry(w.dir, w.names[j])];
    WalkSnoc(r, step, done, Entry(w.dir, w.names[j]));
  }

  /** The inner loop's view of a run: the first j names of one directory, applied in order. */
  function WalkDir(r: Run, step: Stepper, w: WalkStep, j: nat): Run
    requires j <= |w.names|
  {
    if j == 0 then r
    else Apply(WalkDir(r, step, w, j - 1), step, Entry(w.dir, w.names[j - 1]))
  }

  /** The outer loop's view of a run: the first i directories of the walk, applied in order. */
  function WalkTree(r: Run, step: Stepper, walk: seq<WalkStep>, i: nat): Run
    requires i <= |walk|
  {
    if i == 0 then r
    else WalkDir(WalkTree(r, step, walk, i - 1), step, walk[i - 1], |walk[i - 1].names|)
  }

  /** Directory by directory, the loops walk the same entries as the flattened walk. */
  lemma {:induction false} WalkDirIs(r: Run, step: Stepper, before: seq<Entry>, w: WalkStep, j: nat)
    requires j <= |w.names|
    ensures Walk(r, step, before + EntriesOf(w)[..j]) == WalkDir(Walk(r, step, before), step, w, j)
  {
    if j == 0 {
      assert before + EntriesOf(w)[..0] == before;
    } else {
      WalkDirIs(r, step, before, w, j - 1);
      WalkNext(r, step, before, w, j - 1);
    }
  }

  lemma {:induction false} WalkTreeIs(r: Run, step: Stepper, walk: seq<WalkStep>, i: nat)
    requires i <= |walk|
    ensures Walk(r, step, Flatten(walk[..i])) == WalkTree(r, step, walk, i)
  {
    if i == 0 {
      assert walk[..0] == [];
    } else {
      var w := walk[i - 1];
      WalkTreeIs(r, step, walk, i - 1);
      FlattenSnoc(walk, i - 1);
      WalkDirIs(r, step, Flatten(walk[..i - 1]), w, |w.names|);
      assert EntriesOf(w)[..|w.names|] == EntriesOf(w);
    }
  }

  /** A run that failed within a directory ends that directory unchanged. */
  lemma {:induction false} WalkDirFailed(r: Run, step: Stepper, w: WalkStep, j: nat, k: nat)
    requires j <= k <= |w.names|
    requires WalkDir(r, step, w, j).failed
    ensures WalkDir(r, step, w, k) == WalkDir(r, step, w, j)
    decreases k
  {
    if k > j {
      WalkDirFailed(r, step, w, j, k - 1);
    }
  }

  /** A run that failed within a directory ends the whole walk unchanged. */
  lemma {:induction false} WalkTreeFailed(r: Run, step: Stepper, walk: seq<WalkStep>, i: nat, k: nat)
    requires i <= k <= |walk|
    requires WalkTree(r, step, walk, i).failed
    ensures WalkTree(r, step, walk, k) == WalkTree(r, step, walk, i)
    decreases k
  {
    if k > i {
      WalkTreeFailed(r, step, walk, i, k - 1);
      var before := WalkTree(r, step, walk, k - 1);
      WalkDirFailed(before, step, walk[k - 1], 0, |walk[k - 1].names|);
    }
  }

  /** For a valid root, the whole call is the outer loop run to its end. */
  lemma TreeIsWalk(fs: Fs, root: Path, ignoreHidden: bool, denied: set<Path>, walk: seq<WalkStep>)
    requires root in fs.dirs
    ensures var r := WalkTree(Run(fs, [], false), Sorter(root, ignoreHidden, denied), walk, |walk|);
      SortFiles(fs, root, ignoreHidden, denied, walk) == (r.fs, if r.failed then None else Some(r.moved))
  {
    WalkTreeIs(Run(fs, [], false), Sorter(root, ignoreHidden, denied), walk, |walk|);
    assert walk[..|walk|] == walk;
  }

  // ---------------------------------------------------------------------
  // The sorter itself, over a mutable file system
  // ---------------------------------------------------------------------

  /**
   * The directory tree the sorter works on: the files and directories that
   * exist, changed in place by makedirs and move, and the source paths
   * whose move the system refuses (PermissionError).
   */
  class Disk {
    var files: set<Path>
    var dirs: set<Path>
    const denied: set<Path>

    constructor (files0: set<Path>, dirs0: set<Path>, denied0: set<Path>)
      ensures files == files0 && dirs == dirs0 && denied == denied0
    {
      files := files0;
      dirs := dirs0;
      denied := denied0;
    }

    function State(): Fs
      reads this
    {
      Fs(files, dirs)
    }

    /** The counter loop: the first of name, name_1.ext, name_2.ext, ... that does not exist in targetDir. */
    method ChooseTarget(targetDir: Path, filename: string) returns (target: Path)
      ensures target == TargetPath(State(), targetDir, filename)
      ensures !Exists(State(), target)
    {
      target := Join(targetDir, filename);
      var counter: nat := 1;
      while target in files || target in dirs
        invariant counter >= 1
        invariant target == Candidate(targetDir, filename, counter - 1)
        invariant forall j: nat :: j < counter - 1 ==> Candidate(targetDir, filename, j) in files + dirs
        decreases |files + dirs| + 1 - counter
      {
        CandidatesOccupy(files + dirs, targetDir, filename, counter);
        var parts := SplitExt(filename);
        target := Join(targetDir, parts.0 + "_" + Decimal(counter) + parts.1);
        counter := counter + 1;
      }
      TargetIs(State(), targetDir, filename, counter - 1);
    }

    /** One listed file: skip it, move it, or fail, changing the tree as Step says. */
    method Visit(root: Path, ignoreHidden: bool, e: Entry) returns (outcome: StepResult)
      modifies this
      ensures outcome == Step(old(State()), root, ignoreHidden, denied, e)
      ensures State() == match outcome
        case Skipped => old(State())
        case Moved(fs, _) => fs
        case Failed(fs) => fs
    {
      if ignoreHidden && |e.name| > 0 && e.name[0] == Dot {
        return Skipped;
      }
      var filePath := Join(e.dir, e.name);
      if filePath !in files {
        return Skipped;
      }
      var ext := Extension(e.name);
      if ext == [] {
        return Skipped;
      }
      var targetDir := Join(root, ext);
      if targetDir in files {
        return Failed(State());
      }
      dirs := dirs + {targetDir};
      var target := ChooseTarget(targetDir, e.name);
      if filePath in denied {
        return Failed(State());
      }
      files := files - {filePath} + {target};
      outcome := Moved(State(), target);
    }

    /** One iteration of the inner loop, with moved_files: the run advances by the j-th name. */
    method Record(root: Path, ignoreHidden: bool, ghost start: Run, current: WalkStep, j: nat, moved0: seq<Path>)
      returns (moved: seq<Path>, failed: bool)
      requires j < |current.names|
      requires WalkDir(start, Sorter(root, ignoreHidden, denied), current, j) == Run(State(), moved0, false)
      modifies this
      ensures WalkDir(start, Sorter(root, ignoreHidden, denied), current, j + 1) == Run(State(), moved, failed)
    {
      var outcome := Visit(root, ignoreHidden, Entry(current.dir, current.names[j]));
      moved, failed := moved0, outcome.Failed?;
      if outcome.Moved? {
        moved := moved + [outcome.target];
      }
    }

    /** The inner loop over the names listed in one directory; ok is false once a step fails. */
    method SortListed(root: Path, ignoreHidden: bool, current: WalkStep, moved0: seq<Path>) returns (moved: seq<Path>, ok: bool)
      modifies this
      ensures WalkDir(Run(old(State()), moved0, false), Sorter(root, ignoreHidden, denied), current, |current.names|)
           == Run(State(), moved, !ok)
    {
      ghost var start := Run(State(), moved0, false);
      moved := moved0;
      var j := 0;
      var failed := false;
      while j < |current.names| && !failed
        invariant 0 <= j <= |current.names|
        invariant WalkDir(start, Sorter(root, ignoreHidden, denied), current, j) == Run(State(), moved, failed)
      {
        moved, failed := Record(root, ignoreHidden, start, current, j, moved);
        j := j + 1;
      }
      if failed {
        WalkDirFailed(start, Sorter(root, ignoreHidden, denied), current, j, |current.names|);
      }
      ok := !failed;
    }

    /**
     * sort_files_by_extension over the given walk: None for a root that is
     * not a directory, or after the first error (moves made so far stand);
     * otherwise the list of paths the files were moved to.
     */
    method SortFilesByExtension(root: Path, ignoreHidden: bool, walk: seq<WalkStep>) returns (result: Option<seq<Path>>)
      modifies this
      ensures (State(), result) == SortFiles(old(State()), root, ignoreHidden, denied, walk)
    {
      if root !in dirs {
        return None;
      }
      ghost var start := Run(State(), [], false);
      TreeIsWalk(start.fs, root, ignoreHidden, denied, walk);
      var moved: seq<Path> := [];
      var i := 0;
      var ok := true;
      while i < |walk| && ok
        invariant 0 <= i <= |walk|
        invariant WalkTree(start, Sorter(root, ignoreHidden, denied), walk, i) == Run(State(), moved, !ok)
      {
        moved, ok := SortListed(root, ignoreHidden, walk[i], moved);
        i := i + 1;
      }
      if !ok {
        WalkTreeFailed(start, Sorter(root, ignoreHidden, denied), walk, i, |walk|);
      }
      result := if ok then Some(moved) else None;
    }
  }

  // ---------------------------------------------------------------------
  // A run whose moved_files list names one path twice
  // ---------------------------------------------------------------------

  lemma ShortExtension()
    ensures Extension("a.t") == "t"
  {
    ExtensionOf("a", "t");
    assert "a" + [Dot] + "t" == "a.t";
    assert Lower("t") == "t";
  }

  lemma ShortVariant()
    ensures Numbered("a.t", 1) == "a_1.t"
  {
    SplitExtOf("a", "t");
    assert "a" + [Dot] + "t" == "a.t";
    assert Decimal(1) == "1";
  }

  lemma JoinUnder(d: Path, x: Path)
    requires |d| > 0 && d[|d| - 1] != Sep
    requires |x| > 0 && x[0] != Sep
    ensures Join(d, x) == d + [Sep] + x
  {
  }

  lemma JoinRootExt()
    ensures Join("r", "t") == "r/t"
  {
  }

  lemma JoinRootName()
    ensures Join("r", "a.t") == "r/a.t"
  {
  }

  lemma JoinSubName()
    ensures Join("r/z", "a.t") == "r/z/a.t"
  {
  }

  lemma JoinExtName()
    ensures Join("r/t", "a.t") == "r/t/a.t"
  {
  }

  lemma FirstCandidates()
    ensures Candidate("r/t", "a.t", 0) == "r/t/a.t"
  {
  }

  lemma SecondCandidates()
    ensures Candidate("r/t", "a.t", 1) == "r/t/a_1.t"
  {
    ShortVariant();
    JoinUnder("r/t", "a_1.t");
  }

  /** Conditions under which a step moves the file to a given target. */
  lemma StepMovesTo(fs: Fs, root: Path, ignoreHidden: bool, denied: set<Path>, e: Entry, ext: string, target: Path)
    requires !(ignoreHidden && Hidden(e.name))
    requires Join(e.dir, e.name) in fs.files && Join(e.dir, e.name) !in denied
    requires Extension(e.name) == ext && ext != [] && Join(root, ext) !in fs.files
    requires target == TargetPath(Fs(fs.files, fs.dirs + {Join(root, ext)}), Join(root, ext), e.name)
    ensures Step(fs, root, ignoreHidden, denied, e)
         == Moved(Fs(fs.files - {Join(e.dir, e.name)} + {target}, fs.dirs + {Join(root, ext)}), target)
  {
  }

  /** The target is the candidate k when k is free and all before it are taken. */
  lemma TargetIs(fs: Fs, dir: Path, name: string, k: nat)
    requires forall j: nat :: j < k ==> Exists(fs, Candidate(dir, name, j))
    requires !Exists(fs, Candidate(dir, name, k))
    ensures TargetPath(fs, dir, name) == Candidate(dir, name, k)
  {
  }

  /** A walk over one more entry applies one more step. */
  lemma WalkSnoc(r: Run, step: Stepper, es: seq<Entry>, e: Entry)
    ensures Walk(r, step, es + [e]) == Apply(Walk(r, step, es), step, e)
  {
    assert (es + [e])[..|es|] == es;
  }

  /** With r/t/a.t free, a.t keeps its own name in r/t. */
  lemma OwnNameFree(made: Fs)
    requires "r/t/a.t" !in made.files + made.dirs
    ensures TargetPath(made, "r/t", "a.t") == "r/t/a.t"
  {
    FirstCandidates();
    TargetIs(made, "r/t", "a.t", 0);
  }

  lemma SecondTarget(made: Fs)
    requires made == Fs({"r/t/a.t", "r/z/a.t"}, {"r", "r/t", "r/z"})
    ensures TargetPath(made, "r/t", "a.t") == "r/t/a_1.t"
  {
    FirstCandidates();
    SecondCandidates();
    TargetIs(made, "r/t", "a.t", 1);
  }

  /** The first file lands in the existing r/t under its own name. */
  lemma FirstMove(fs: Fs)
    requires fs == Fs({"r/a.t", "r/z/a.t"}, {"r", "r/t", "r/z"})
    ensures Step(fs, "r", true, {}, Entry("r", "a.t"))
         == Moved(Fs({"r/t/a.t", "r/z/a.t"}, fs.dirs), "r/t/a.t")
  {
    ShortExtension();
    JoinRootExt();
    JoinRootName();
    assert fs.dirs + {"r/t"} == fs.dirs;
    OwnNameFree(fs);
    StepMovesTo(fs, "r", true, {}, Entry("r", "a.t"), "t", "r/t/a.t");
    assert fs.files - {"r/a.t"} + {"r/t/a.t"} == {"r/t/a.t", "r/z/a.t"};
  }

  /** Listed again inside r/t, the same file collides with itself and becomes a_1.t. */
  lemma SecondMove(fs: Fs)
    requires fs == Fs({"r/t/a.t", "r/z/a.t"}, {"r", "r/t", "r/z"})
    ensures Step(fs, "r", true, {}, Entry("r/t", "a.t"))
         == Moved(Fs({"r/t/a_1.t", "r/z/a.t"}, fs.dirs), "r/t/a_1.t")
  {
    ShortExtension();
    JoinRootExt();
    JoinExtName();
    assert fs.dirs + {"r/t"} == fs.dirs;
    SecondTarget(fs);
    StepMovesTo(fs, "r", true, {}, Entry("r/t", "a.t"), "t", "r/t/a_1.t");
    assert fs.files - {"r/t/a.t"} + {"r/t/a_1.t"} == {"r/t/a_1.t", "r/z/a.t"};
  }

  /** The vacated r/t/a.t is free again for the file from r/z. */
  lemma ThirdMove(fs: Fs)
    requires fs == Fs({"r/t/a_1.t", "r/z/a.t"}, {"r", "r/t", "r/z"})
    ensures Step(fs, "r", true, {}, Entry("r/z", "a.t"))
         == Moved(Fs({"r/t/a_1.t", "r/t/a.t"}, fs.dirs), "r/t/a.t")
  {
    ShortExtension();
    JoinRootExt();
    JoinSubName();
    assert fs.dirs + {"r/t"} == fs.dirs;
    OwnNameFree(fs);
    StepMovesTo(fs, "r", true, {}, Entry("r/z", "a.t"), "t", "r/t/a.t");
    assert fs.files - {"r/z/a.t"} + {"r/t/a.t"} == {"r/t/a_1.t", "r/t/a.t"};
  }

  /** The walk of the example, entry by entry. */
  lemma RepeatWalkEntries()
    ensures Flatten([WalkStep("r", ["a.t"]), WalkStep("r/t", ["a.t"]), WalkStep("r/z", ["a.t"])])
         == [Entry("r", "a.t"), Entry("r/t", "a.t"), Entry("r/z", "a.t")]
  {
    var w1, w2, w3 := WalkStep("r", ["a.t"]), WalkStep("r/t", ["a.t"]), WalkStep("r/z", ["a.t"]);
    assert [w1, w2, w3][..2] == [w1, w2];
    assert [w1, w2][..1] == [w1];
    assert [w1][..0] == [];
    assert Flatten([w1]) == [Entry("r", "a.t")];
    assert Flatten([w1, w2]) == [Entry("r", "a.t"), Entry("r/t", "a.t")];
  }

  const ExampleDirs: set<Path> := {"r", "r/t", "r/z"}
  const ExampleStart := Run(Fs({"r/a.t", "r/z/a.t"}, ExampleDirs), [], false)
  const ExampleSorter := Sorter("r", true, {})

  lemma RepeatRunFirst()
    ensures Walk(ExampleStart, ExampleSorter, [Entry("r", "a.t")])
         == Run(Fs({"r/t/a.t", "r/z/a.t"}, ExampleDirs), ["r/t/a.t"], false)
  {
    WalkSnoc(ExampleStart, ExampleSorter, [], Entry("r", "a.t"));
    FirstMove(ExampleStart.fs);
    assert [] + [Entry("r", "a.t")] == [Entry("r", "a.t")];
  }

  lemma RepeatRunSecond()
    ensures Walk(ExampleStart, ExampleSorter, [Entry("r", "a.t"), Entry("r/t", "a.t")])
         == Run(Fs({"r/t/a_1.t", "r/z/a.t"}, ExampleDirs), ["r/t/a.t", "r/t/a_1.t"], false)
  {
    RepeatRunFirst();
    WalkSnoc(ExampleStart, ExampleSorter, [Entry("r", "a.t")], Entry("r/t", "a.t"));
    SecondMove(Fs({"r/t/a.t", "r/z/a.t"}, ExampleDirs));
    assert [Entry("r", "a.t")] + [Entry("r/t", "a.t")] == [Entry("r", "a.t"), Entry("r/t", "a.t")];
  }

  lemma RepeatRun()
    ensures Walk(ExampleStart, ExampleSorter, [Entry("r", "a.t"), Entry("r/t", "a.t"), Entry("r/z", "a.t")])
         == Run(Fs({"r/t/a_1.t", "r/t/a.t"}, ExampleDirs), ["r/t/a.t", "r/t/a_1.t", "r/t/a.t"], false)
  {
    var e1, e2, e3 := Entry("r", "a.t"), Entry("r/t", "a.t"), Entry("r/z", "a.t");
    RepeatRunSecond();
    WalkSnoc(ExampleStart, ExampleSorter, [e1, e2], e3);
    ThirdMove(Fs({"r/t/a_1.t", "r/z/a.t"}, ExampleDirs));
    assert [e1, e2] + [e3] == [e1, e2, e3];
  }

  /**
   * Pairwise-distinct moved_files is not guaranteed: with r/t already
   * present and walked after r, the file moved there is listed again,
   * renamed, and its old name is reused by a later file.
   */
  lemma MovedListCanRepeat()
    ensures var fs := Fs({"r/a.t", "r/z/a.t"}, {"r", "r/t", "r/z"});
      var walk := [WalkStep("r", ["a.t"]), WalkStep("r/t", ["a.t"]), WalkStep("r/z", ["a.t"])];
      SortFiles(fs, "r", true, {}, walk).1 == Some(["r/t/a.t", "r/t/a_1.t", "r/t/a.t"])
  {
    RepeatWalkEntries();
    RepeatRun();
  }
}
