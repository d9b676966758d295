/**
 * Discovery of launchable programs: `fetchExecutables` lists one directory,
 * `scanPath` gathers every search-path directory's list and sorts the lot.
 * The file system is a value: a map from each readable directory to its
 * listing, in the order the listing returns it.
 */
module Scan {
  import opened Text

  /** One directory entry: base name and file mode bits. */
  datatype Entry = Entry(name: string, mode: bv32)

  /** The owner, group and other execute bits, octal 0111. */
  const ExecuteBits: bv32 := 0x49

  predicate IsExecutable(e: Entry) {
    e.mode & ExecuteBits != 0
  }

  /** Directories that can be read, with their entries; any other path cannot be read. */
  type FileSystem = map<string, seq<Entry>>

  /** The listing of `dir`; one that cannot be read lists nothing. */
  function Listing(fs: FileSystem, dir: string): seq<Entry> {
    if dir in fs then fs[dir] else []
  }

  /** The names of the executable entries of a listing, in listing order. */
  function ExecutableNames(listing: seq<Entry>): (names: seq<string>)
    ensures |names| <= |listing|
    ensures forall i :: 0 <= i < |listing| && IsExecutable(listing[i]) ==> listing[i].name in names
    ensures forall x :: x in names ==> exists e :: e in listing && IsExecutable(e) && e.name == x
  {
    if listing == [] then []
    else
      var rest := ExecutableNames(listing[1..]);
      assert forall i :: 1 <= i < |listing| ==> listing[i] == listing[1..][i - 1];
      if IsExecutable(listing[0]) then [listing[0].name] + rest else rest
  }

  /** The filter keeps listing order: it distributes over concatenated listings. */
  lemma {:induction false} ExecutableNamesAppend(a: seq<Entry>, b: seq<Entry>)
    ensures ExecutableNames(a + b) == ExecutableNames(a) + ExecutableNames(b)
    decreases |a|
  {
    if a == [] {
      assert a + b == b;
    } else {
      assert (a + b)[0] == a[0];
      assert (a + b)[1..] == a[1..] + b;
      ExecutableNamesAppend(a[1..], b);
    }
  }

  /** `fetchExecutables(dir)`: the executable entries of `dir`, none when it cannot be read. */
  function FetchExecutables(fs: FileSystem, dir: string): (names: seq<string>)
    ensures dir !in fs ==> names == []
    ensures dir in fs ==> forall e :: e in fs[dir] && IsExecutable(e) ==> e.name in names
    ensures forall x :: x in names ==> exists e :: e in Listing(fs, dir) && IsExecutable(e) && e.name == x
  {
    ExecutableNames(Listing(fs, dir))
  }

  /** Every directory's executables, one directory after another. */
  function Gathered(fs: FileSystem, dirs: seq<string>): seq<string> {
    if dirs == [] then [] else FetchExecutables(fs, dirs[0]) + Gathered(fs, dirs[1..])
  }

  lemma {:induction false} GatheredAppend(fs: FileSystem, a: seq<string>, b: seq<string>)
    ensures Gathered(fs, a + b) == Gathered(fs, a) + Gathered(fs, b)
    decreases |a|
  {
    if a == [] {
      assert a + b == b;
    } else {
      assert (a + b)[0] == a[0];
      assert (a + b)[1..] == a[1..] + b;
      GatheredAppend(fs, a[1..], b);
    }
  }

  /**
   * `scanPath` does not merge equal names from different directories: a name
   * executable in two search-path directories is gathered (at least) twice.
   */
  lemma ScanKeepsDuplicates(fs: FileSystem, dirs: seq<string>, i: nat, j: nat, x: string)
    requires i < j < |dirs|
    requires x in FetchExecutables(fs, dirs[i]) && x in FetchExecutables(fs, dirs[j])
    ensures multiset(Gathered(fs, dirs))[x] >= 2
  {
    var front, back := dirs[..j], dirs[j..];
    assert dirs == front + back;
    GatheredAppend(fs, front, back);
    GatheredHas(fs, front, i);
    GatheredHas(fs, back, 0);
    var g1, g2 := Gathered(fs, front), Gathered(fs, back);
    assert multiset(g1 + g2) == multiset(g1) + multiset(g2);
  }

  lemma GatheredHas(fs: FileSystem, dirs: seq<string>, i: nat)
    requires i < |dirs|
    ensures multiset(FetchExecutables(fs, dirs[i])) <= multiset(Gathered(fs, dirs))
  {
    var front, back := dirs[..i], dirs[i..];
    assert dirs == front + back;
    GatheredAppend(fs, front, back);
    var found, later := FetchExecutables(fs, dirs[i]), Gathered(fs, back[1..]);
    assert Gathered(fs, back) == found + later;
    assert multiset(Gathered(fs, front) + found + later)
        == multiset(Gathered(fs, front)) + multiset(found) + multiset(later);
  }

  /** `sort.Strings`: sorts in place, byte-wise. */
  method SortStrings(a: array<string>)
    modifies a
    ensures Sorted(a[..])
    ensures multiset(a[..]) == multiset(old(a[..]))
  {
    var i := 0;
    while i < a.Length
      invariant 0 <= i <= a.Length
      invariant AdjacentSorted(a[..i])
      invariant multiset(a[..]) == multiset(old(a[..]))
    {
      InsertInto(a, i);
      i := i + 1;
    }
    assert a[..a.Length] == a[..];
    AdjacentSortedIsSorted(a[..]);
  }

  /** One insertion-sort step: moves `a[i]` left into the sorted prefix `a[..i]`. */
  method InsertInto(a: array<string>, i: nat)
    requires i < a.Length && AdjacentSorted(a[..i])
    modifies a
    ensures AdjacentSorted(a[..i + 1])
    ensures multiset(a[..]) == multiset(old(a[..]))
    ensures forall k :: i < k < a.Length ==> a[k] == old(a[k])
  {
    var j := i;
    while j > 0 && !LessEq(a[j - 1], a[j])
      invariant 0 <= j <= i
      invariant forall k :: 0 < k <= i && k != j ==> LessEq(a[k - 1], a[k])
      invariant forall k :: i < k < a.Length ==> a[k] == old(a[k])
      invariant 0 < j < i ==> LessEq(a[j - 1], a[j + 1])
      invariant multiset(a[..]) == multiset(old(a[..]))
    {
      LessEqTotal(a[j - 1], a[j]);
      Exchange(a, j - 1, j);
      j := j - 1;
    }
  }

  method Exchange(a: array<string>, i: nat, j: nat)
    requires i < a.Length && j < a.Length
    modifies a
    ensures a[i] == old(a[j]) && a[j] == old(a[i])
    ensures forall k :: 0 <= k < a.Length && k != i && k != j ==> a[k] == old(a[k])
    ensures multiset(a[..]) == multiset(old(a[..]))
  {
    a[i], a[j] := a[j], a[i];
  }

  /**
   * `scanPath(path)`: splits the search path at every ':', gathers each
   * directory's executables, sorts them and emits them. The directories are
   * gathered one after another by a single collector.
   */
  method ScanPath(path: string, fs: FileSystem) returns (out: seq<string>)
    ensures Sorted(out)
    ensures multiset(out) == multiset(Gathered(fs, Split(path, ':')))
  {
    var dirs := Split(path, ':');
    var commands := GatherAll(fs, dirs);
    var a := new string[|commands|](k requires 0 <= k < |commands| => commands[k]);
    assert a[..] == commands;
    SortStrings(a);
    out := a[..];
  }

  /** The collector of `scanPath`: every directory's executables, appended as they arrive. */
  method GatherAll(fs: FileSystem, dirs: seq<string>) returns (commands: seq<string>)
    ensures commands == Gathered(fs, dirs)
  {
    commands := [];
    for i := 0 to |dirs|
      invariant commands == Gathered(fs, dirs[..i])
    {
      assert dirs[..i + 1] == dirs[..i] + [dirs[i]];
      GatheredAppend(fs, dirs[..i], [dirs[i]]);
      commands := commands + FetchExecutables(fs, dirs[i]);
    }
    assert dirs[..|dirs|] == dirs;
  }

  /**
   * The result of `scanPath` is fixed by the path and the directories'
   * contents alone: whichever directory finishes first, the output is the same.
   */
  lemma ScanPathDeterministic(path: string, fs: FileSystem, out1: seq<string>, out2: seq<string>)
    requires Sorted(out1) && multiset(out1) == multiset(Gathered(fs, Split(path, ':')))
    requires Sorted(out2) && multiset(out2) == multiset(Gathered(fs, Split(path, ':')))
    ensures out1 == out2
  {
    SortedUnique(out1, out2);
  }

  /** Modes 0755, 0644 and 0700: any one execute bit makes an entry a program. */
  lemma FetchExecutablesExample()
    ensures FetchExecutables(ExampleFs, "/usr/bin") == ["emacs", "vim"]
    ensures FetchExecutables(ExampleFs, "/bin") == ["vim"]
    ensures FetchExecutables(ExampleFs, "/missing") == []
  {
    var usr := ExampleFs["/usr/bin"];
    assert usr[1..] == [Entry("notes", 0x1A4), Entry("vim", 0x1C0)];
    assert usr[1..][1..] == [Entry("vim", 0x1C0)] && usr[1..][1..][1..] == [];
    var bin := ExampleFs["/bin"];
    assert bin[1..] == [];
  }

  /** Two readable directories and one missing. */
  const ExampleFs: FileSystem := map[
    "/usr/bin" := [Entry("emacs", 0x1ED), Entry("notes", 0x1A4), Entry("vim", 0x1C0)],
    "/bin" := [Entry("vim", 0x1ED)]
  ]

  /** The example path names three directories. */
  lemma ExamplePathSplit()
    ensures Split("/usr/bin:/bin:/missing", ':') == ["/usr/bin", "/bin", "/missing"]
  {
    var dirs: seq<string> := ["/usr/bin", "/bin", "/missing"];
    assert Join(dirs[2..], ':') == "/missing";
    assert Join(dirs[1..], ':') == "/bin:/missing";
    assert Join(dirs, ':') == "/usr/bin:/bin:/missing";
    SplitJoin(dirs, ':');
  }

  /** Gathering the three directories, in path order. */
  lemma ExampleGathered()
    ensures Gathered(ExampleFs, ["/usr/bin", "/bin", "/missing"]) == ["emacs", "vim", "vim"]
  {
    var dirs: seq<string> := ["/usr/bin", "/bin", "/missing"];
    FetchExecutablesExample();
    assert dirs[1..] == ["/bin", "/missing"] && dirs[1..][1..] == ["/missing"] && dirs[1..][1..][1..] == [];
    assert Gathered(ExampleFs, dirs[1..][1..]) == [];
    assert Gathered(ExampleFs, dirs[1..]) == ["vim"];
  }

  /**
   * Scanning "/usr/bin:/bin:/missing": the missing directory adds nothing,
   * and a program found in two directories is listed twice.
   */
  lemma ScanPathExample(out: seq<string>)
    requires Sorted(out) && multiset(out) == multiset(Gathered(ExampleFs, Split("/usr/bin:/bin:/missing", ':')))
    ensures out == ["emacs", "vim", "vim"]
  {
    ExamplePathSplit();
    ExampleGathered();
    ExampleSorted();
    SortedUnique(out, ["emacs", "vim", "vim"]);
  }

  lemma ExampleSorted()
    ensures Sorted(["emacs", "vim", "vim"])
  {
    var s: seq<string> := ["emacs", "vim", "vim"];
    assert LessEq(s[0], s[1]) by { assert s[0][0] == 'e' && s[1][0] == 'v'; }
    assert LessEq(s[1], s[2]) by { LessEqReflexive(s[1]); }
    assert LessEq(s[0], s[2]);
  }
}
