/**
 * File discovery and the skip filter: which walked files become conversion
 * tasks, and where each task writes its JPEG.
 *
 * The directory walk (`os.walk`) and the existence test (`os.path.exists`)
 * are inputs: the walk is the sequence of `(root, files)` entries it yields,
 * in the order it yields them, and the existence test is the set of paths
 * that exist when the scan runs.
 */
module Discovery {
  import opened PyStr
  import opened PyPath
  import opened SeqFilter

  /** The extension a walked file must have, once lower-cased, to be converted. */
  const HeicExt: string := ".heic"
  /** What replaces the extension in the output file name. */
  const JpegSuffix: string := ".jpg"

  /** One `(root, dirs, files)` triple of the walk; the sub-directory names are not used. */
  datatype WalkEntry = WalkEntry(root: string, files: seq<string>)

  /** One walked file: the directory it was found in and its name. */
  datatype WalkedFile = WalkedFile(root: string, name: string)

  /** A conversion task: the HEIC file to read and the JPEG file to write. */
  datatype Task = Task(input: string, output: string)

  /** The extension test: `splitext(name)[1].lower() == ".heic"`. */
  predicate IsHeic(name: string) {
    Lower(Ext(name)) == HeicExt
  }

  /** Where a walked file named `name` is converted to: `join(outDir, splitext(name)[0] + ".jpg")`. */
  function OutputPath(outDir: string, name: string): string {
    Join(outDir, Stem(name) + JpegSuffix)
  }

  /** The task a walked file gives rise to. */
  function TaskOf(f: WalkedFile, outDir: string): Task {
    Task(Join(f.root, f.name), OutputPath(outDir, f.name))
  }

  /** A walked file is kept when it is a HEIC file whose JPEG does not exist yet. */
  predicate Keep(f: WalkedFile, outDir: string, existing: set<string>) {
    IsHeic(f.name) && OutputPath(outDir, f.name) !in existing
  }

  /** The files of one walk entry, in the order the walk lists them. */
  function EntryFiles(e: WalkEntry): (r: seq<WalkedFile>)
    ensures |r| == |e.files|
    ensures forall i :: 0 <= i < |r| ==> r[i] == WalkedFile(e.root, e.files[i])
  {
    seq(|e.files|, i requires 0 <= i < |e.files| => WalkedFile(e.root, e.files[i]))
  }

  /** Every file of the walk, in walk order. */
  function Flatten(walk: seq<WalkEntry>): seq<WalkedFile> {
    if walk == [] then []
    else Flatten(walk[..|walk| - 1]) + EntryFiles(walk[|walk| - 1])
  }

  /** How many files the walk lists. */
  function FileCount(walk: seq<WalkEntry>): nat {
    if walk == [] then 0
    else FileCount(walk[..|walk| - 1]) + |walk[|walk| - 1].files|
  }

  function KeepIn(outDir: string, existing: set<string>): WalkedFile -> bool {
    f => Keep(f, outDir, existing)
  }

  function TaskIn(outDir: string): WalkedFile -> Task {
    f => TaskOf(f, outDir)
  }

  /** The tasks of the kept files among `ws`, in the order of `ws`. */
  function Selected(ws: seq<WalkedFile>, outDir: string, existing: set<string>): seq<Task> {
    FilterMap(ws, KeepIn(outDir, existing), TaskIn(outDir))
  }

  /** The result of `_collect_heic_without_jpeg` on a walk, an output directory and a file-system snapshot. */
  function Collect(walk: seq<WalkEntry>, outDir: string, existing: set<string>): seq<Task> {
    Selected(Flatten(walk), outDir, existing)
  }

  /**
   * The scan itself: two nested loops over the walk that append a task for
   * every HEIC file whose JPEG is missing.
   */
  method CollectHeicWithoutJpeg(walk: seq<WalkEntry>, outDir: string, existing: set<string>)
    returns (pairs: seq<Task>)
    ensures pairs == Collect(walk, outDir, existing)
  {
    pairs := [];
    var w := 0;
    while w < |walk|
      invariant 0 <= w <= |walk|
      invariant pairs == Collect(walk[..w], outDir, existing)
    {
      var entry := walk[w];
      ghost var before := pairs;
      var f := 0;
      while f < |entry.files|
        invariant 0 <= f <= |entry.files|
        invariant pairs == before + Selected(EntryFiles(WalkEntry(entry.root, entry.files[..f])), outDir, existing)
      {
        var file := entry.files[f];
        EntryStep(entry, f, outDir, existing);
        if IsHeic(file) {
          var inputFile := Join(entry.root, file);
          var outputFile := Join(outDir, Stem(file) + JpegSuffix);
          if outputFile !in existing {
            pairs := pairs + [Task(inputFile, outputFile)];
          }
        }
        f := f + 1;
      }
      assert entry.files[..f] == entry.files;
      CollectStep(walk, w, outDir, existing);
      w := w + 1;
    }
    assert walk[..w] == walk;
  }

  /** One more file of an entry adds that file's task, if any. */
  lemma EntryStep(entry: WalkEntry, f: nat, outDir: string, existing: set<string>)
    requires f < |entry.files|
    ensures Selected(EntryFiles(WalkEntry(entry.root, entry.files[..f + 1])), outDir, existing)
      == Selected(EntryFiles(WalkEntry(entry.root, entry.files[..f])), outDir, existing)
         + (if Keep(WalkedFile(entry.root, entry.files[f]), outDir, existing)
            then [TaskOf(WalkedFile(entry.root, entry.files[f]), outDir)] else [])
  {
    var done := EntryFiles(WalkEntry(entry.root, entry.files[..f]));
    var file := WalkedFile(entry.root, entry.files[f]);
    assert EntryFiles(WalkEntry(entry.root, entry.files[..f + 1])) == done + [file];
    FilterMapAppend(done, [file], KeepIn(outDir, existing), TaskIn(outDir));
  }

  /** One more walk entry adds the tasks of that entry. */
  lemma CollectStep(walk: seq<WalkEntry>, w: nat, outDir: string, existing: set<string>)
    requires w < |walk|
    ensures Collect(walk[..w + 1], outDir, existing)
      == Collect(walk[..w], outDir, existing) + Selected(EntryFiles(walk[w]), outDir, existing)
  {
    assert walk[..w + 1][..w] == walk[..w];
    FilterMapAppend(Flatten(walk[..w]), EntryFiles(walk[w]), KeepIn(outDir, existing), TaskIn(outDir));
  }

  // ----- Properties of the scan -----

  /** The walk order lists exactly the files of the walk entries. */
  lemma {:induction false} FlattenCount(walk: seq<WalkEntry>)
    ensures |Flatten(walk)| == FileCount(walk)
  {
    if walk != [] {
      FlattenCount(walk[..|walk| - 1]);
    }
  }

  /** Every file listed by some walk entry is visited by the scan. */
  lemma {:induction false} FlattenHas(walk: seq<WalkEntry>, w: nat, f: nat)
    requires w < |walk| && f < |walk[w].files|
    ensures WalkedFile(walk[w].root, walk[w].files[f]) in Flatten(walk)
  {
    var n := |walk| - 1;
    if w < n {
      assert walk[..n][w] == walk[w];
      FlattenHas(walk[..n], w, f);
    } else {
      assert EntryFiles(walk[n])[f] == WalkedFile(walk[w].root, walk[w].files[f]);
    }
  }

  /**
   * Both directions of the skip filter: a task is produced exactly for a
   * visited file that is a HEIC file whose output path does not exist.
   */
  lemma SelectedMembership(ws: seq<WalkedFile>, outDir: string, existing: set<string>, t: Task)
    ensures t in Selected(ws, outDir, existing) <==>
      exists f :: f in ws && Keep(f, outDir, existing) && t == TaskOf(f, outDir)
  {
    FilterMapMembership(ws, KeepIn(outDir, existing), TaskIn(outDir), t);
  }

  /** No produced task writes to a path that exists at scan time, and each comes from a HEIC file. */
  lemma SkipsExisting(walk: seq<WalkEntry>, outDir: string, existing: set<string>, t: Task)
    requires t in Collect(walk, outDir, existing)
    ensures t.output !in existing
    ensures exists f :: f in Flatten(walk) && IsHeic(f.name) && t == TaskOf(f, outDir)
  {
    SelectedMembership(Flatten(walk), outDir, existing, t);
  }

  /** Every HEIC file of the walk whose output path does not exist yields a task. */
  lemma CollectsEveryMissing(walk: seq<WalkEntry>, outDir: string, existing: set<string>, w: nat, f: nat)
    requires w < |walk| && f < |walk[w].files|
    requires IsHeic(walk[w].files[f])
    requires OutputPath(outDir, walk[w].files[f]) !in existing
    ensures Task(Join(walk[w].root, walk[w].files[f]), OutputPath(outDir, walk[w].files[f]))
      in Collect(walk, outDir, existing)
  {
    var file := WalkedFile(walk[w].root, walk[w].files[f]);
    FlattenHas(walk, w, f);
    SelectedMembership(Flatten(walk), outDir, existing, TaskOf(file, outDir));
  }

  /** The tasks of a scan follow the walk order and never outnumber the walked files. */
  lemma CollectOrderAndCount(walk: seq<WalkEntry>, outDir: string, existing: set<string>)
    ensures |Flatten(walk)| == FileCount(walk)
    ensures |Collect(walk, outDir, existing)| <= FileCount(walk)
    ensures var idx := Origins(Flatten(walk), KeepIn(outDir, existing));
      |idx| == |Collect(walk, outDir, existing)| && IncreasingBelow(idx, |Flatten(walk)|)
      && forall k :: 0 <= k < |idx| ==>
           idx[k] < |Flatten(walk)| && Collect(walk, outDir, existing)[k] == TaskOf(Flatten(walk)[idx[k]], outDir)
  {
    FlattenCount(walk);
    OriginsCorrect(Flatten(walk), KeepIn(outDir, existing), TaskIn(outDir));
  }

  /** The test that a task's output is not among `written`. */
  function Unwritten(written: set<string>): Task -> bool {
    (t: Task) => t.output !in written
  }

  /**
   * Re-running the scan after the JPEGs in `written` have appeared gives the
   * first run's tasks, in the same order, minus those whose output now exists.
   */
  lemma RescanSkipsWritten(walk: seq<WalkEntry>, outDir: string, existing: set<string>, written: set<string>)
    ensures Collect(walk, outDir, existing + written) == Filter(Collect(walk, outDir, existing), Unwritten(written))
  {
    FilterMapNarrow(Flatten(walk), KeepIn(outDir, existing), KeepIn(outDir, existing + written),
      TaskIn(outDir), Unwritten(written));
  }

  /** Once every output of a scan exists, the same scan finds nothing to do. */
  lemma RescanAfterFullRunIsEmpty(walk: seq<WalkEntry>, outDir: string, existing: set<string>, written: set<string>)
    requires forall t :: t in Collect(walk, outDir, existing) ==> t.output in written
    ensures Collect(walk, outDir, existing + written) == []
  {
    RescanSkipsWritten(walk, outDir, existing, written);
    FilterNone(Collect(walk, outDir, existing), Unwritten(written));
  }

  // ----- The extension test and the output name -----

  /**
   * For a file name (which has no separator), the extension test holds
   * exactly when the name ends in ".heic" in any mix of cases and some
   * character before that ending is not a dot.
   */
  lemma IsHeicIff(name: string)
    requires Sep !in name
    ensures IsHeic(name) <==>
      |name| >= 5 && Lower(name[|name| - 5..]) == HeicExt
      && exists i :: 0 <= i < |name| - 5 && name[i] != ExtSep
  {
    var sepIndex := RFind(name, Sep);
    var dotIndex := RFind(name, ExtSep);
    RFindLast(name, Sep);
    RFindLast(name, ExtSep);
    assert sepIndex == -1;
    if IsHeic(name) {
      assert |Ext(name)| == 5;
      assert dotIndex > sepIndex && HasNonDot(name, sepIndex + 1, dotIndex);
      assert Ext(name) == name[dotIndex..];
    }
    if |name| >= 5 && Lower(name[|name| - 5..]) == HeicExt && exists i :: 0 <= i < |name| - 5 && name[i] != ExtSep {
      var n := |name|;
      var ending := name[n - 5..];
      LowerAt(ending, 0);
      assert LowerChar(name[n - 5]) == '.';
      forall i | n - 5 < i < n ensures name[i] != ExtSep {
        LowerAt(ending, i - (n - 5));
        assert LowerChar(name[i]) == HeicExt[i - (n - 5)];
      }
      assert dotIndex == n - 5;
      assert HasNonDot(name, sepIndex + 1, dotIndex);
      assert Ext(name) == name[n - 5..];
    }
  }

  /** A name ending in some spelling of ".heic" after a non-dot character passes the extension test. */
  lemma HeicExample(name: string, ending: string)
    requires Sep !in name && |name| > 5 && name[0] != ExtSep
    requires name[|name| - 5..] == ending && Lower(ending) == HeicExt
    ensures IsHeic(name)
  {
    IsHeicIff(name);
  }

  /** Every spelling of ".heic" that differs from it only in letter case lower-cases to it. */
  lemma LowerHeicSpelling(e: string)
    requires |e| == 5 && e[0] == '.'
    requires e[1] in "hH" && e[2] in "eE" && e[3] in "iI" && e[4] in "cC"
    ensures Lower(e) == HeicExt
  {
    LowerAt(e, 0);
    LowerAt(e, 1);
    LowerAt(e, 2);
    LowerAt(e, 3);
    LowerAt(e, 4);
  }

  /** Upper, lower and mixed case extensions are treated alike. */
  lemma ExtensionCaseExamples()
    ensures IsHeic("a.heic") && IsHeic("a.HEIC") && IsHeic("a.Heic")
  {
    SpellingExample("a.heic");
    SpellingExample("a.HEIC");
    SpellingExample("a.Heic");
  }

  lemma SpellingExample(name: string)
    requires |name| == 6 && name[0] == 'a' && name[1] == '.'
    requires name[2] in "hH" && name[3] in "eE" && name[4] in "iI" && name[5] in "cC"
    ensures IsHeic(name)
  {
    assert Sep !in name;
    LowerHeicSpelling(name[1..]);
    HeicExample(name, name[1..]);
  }

  /** A further extension after ".heic" is not selected. */
  lemma ExtensionAfterHeicExample()
    ensures !IsHeic("a.heic.bak")
  {
    var name := "a.heic.bak";
    IsHeicIff(name);
    assert name[5..] == "c.bak";
    LowerAt("c.bak", 0);
  }

  /** Dot files named ".heic" or "..heic" have no extension and are not selected. */
  lemma DotFileExamples()
    ensures !IsHeic(".heic") && !IsHeic("..heic")
  {
    IsHeicIff(".heic");
    IsHeicIff("..heic");
    assert "..heic"[0] == ExtSep;
  }

  /** The stem of a selected file name is the name without its last five characters. */
  lemma HeicStem(name: string)
    requires Sep !in name && IsHeic(name)
    ensures |name| > 5 && Stem(name) == name[..|name| - 5]
    ensures Sep !in Stem(name)
  {
    IsHeicIff(name);
    assert Stem(name) + Ext(name) == name;
    assert |Ext(name)| == 5;
    assert forall i :: 0 <= i < |Stem(name)| ==> Stem(name)[i] == name[i];
  }

  /**
   * For a selected file, the output file is the file name with its last
   * five characters (".heic" in some case) replaced by ".jpg", placed
   * directly in the output directory whatever sub-directory held the input.
   */
  lemma OutputName(outDir: string, name: string)
    requires Sep !in name && IsHeic(name)
    ensures |name| > 5
    ensures Basename(OutputPath(outDir, name)) == name[..|name| - 5] + JpegSuffix
    ensures OutputPath(outDir, name) == outDir + name[..|name| - 5] + JpegSuffix
         || OutputPath(outDir, name) == outDir + [Sep] + name[..|name| - 5] + JpegSuffix
  {
    HeicStem(name);
    var out := Stem(name) + JpegSuffix;
    assert Sep !in out;
    JoinBasename(outDir, out);
  }

  /** "photo.HEIC" in any input sub-directory becomes "out/photo.jpg". */
  lemma OutputExample()
    ensures OutputPath("out", "photo.HEIC") == "out/photo.jpg"
  {
    var name := "photo.HEIC";
    assert Lower(".HEIC") == HeicExt;
    HeicExample(name, ".HEIC");
    HeicStem(name);
    assert name[..5] == "photo";
    var out := "photo" + JpegSuffix;
    assert out == "photo.jpg" && out[0] != Sep;
    assert Stem(name) + JpegSuffix == out;
    assert Join("out", out) == "out" + [Sep] + out == "out/photo.jpg";
  }

  /**
   * The output layout is flat: two HEIC files with the same name in
   * different sub-directories are both selected, and both write to the same
   * output path.
   */
  lemma FlatLayoutCollision(walk: seq<WalkEntry>, outDir: string, existing: set<string>, w1: nat, f1: nat, w2: nat, f2: nat)
    requires w1 < |walk| && f1 < |walk[w1].files| && w2 < |walk| && f2 < |walk[w2].files|
    requires walk[w1].files[f1] == walk[w2].files[f2]
    requires IsHeic(walk[w1].files[f1]) && OutputPath(outDir, walk[w1].files[f1]) !in existing
    ensures var t1 := Task(Join(walk[w1].root, walk[w1].files[f1]), OutputPath(outDir, walk[w1].files[f1]));
      var t2 := Task(Join(walk[w2].root, walk[w2].files[f2]), OutputPath(outDir, walk[w2].files[f2]));
      t1 in Collect(walk, outDir, existing) && t2 in Collect(walk, outDir, existing) && t1.output == t2.output
  {
    CollectsEveryMissing(walk, outDir, existing, w1, f1);
    CollectsEveryMissing(walk, outDir, existing, w2, f2);
  }
}
