/**
 The build guard for entries that run without Electron: it collects every chunk an entry reaches
 through its imports and refuses the bundle when one of them requires electron.
 */
module EntryGuard {
  import opened Wrappers

  /** A chunk of the build.  Chunks are told apart as objects; another plugin may change a chunk's code. */
  class Chunk {
    const fileName: string
    const name: string
    const isEntry: bool
    const imports: seq<string>
    const dynamicImports: seq<string>
    var code: string

    constructor (fileName: string, name: string, isEntry: bool, imports: seq<string>, dynamicImports: seq<string>,
        code: string)
      ensures this.fileName == fileName && this.name == name && this.isEntry == isEntry
      ensures this.imports == imports && this.dynamicImports == dynamicImports && this.code == code
    {
      this.fileName, this.name, this.isEntry := fileName, name, isEntry;
      this.imports, this.dynamicImports, this.code := imports, dynamicImports, code;
    }
  }

  type Bundle = map<string, Chunk>

  function Imports(chunk: Chunk): seq<string> {
    chunk.imports + chunk.dynamicImports
  }

  /** The files `file` imports; a file that is no chunk of the bundle imports nothing. */
  function ImportsOf(bundle: Bundle, file: string): seq<string> {
    if file in bundle then Imports(bundle[file]) else []
  }

  /** A chunk of the bundle imports the file, at once or when it runs. */
  predicate Links(bundle: Bundle, from: string, to: string) {
    from in bundle && (to in bundle[from].imports || to in bundle[from].dynamicImports)
  }

  /** Each file of the path imports the next. */
  predicate IsPath(bundle: Bundle, path: seq<string>) {
    forall i :: 0 <= i < |path| - 1 ==> Links(bundle, path[i], path[i + 1])
  }

  ghost predicate Reaches(bundle: Bundle, from: string, to: string) {
    exists path :: |path| > 0 && path[0] == from && path[|path| - 1] == to && IsPath(bundle, path)
  }

  /** A finite set of files that the search cannot leave. */
  ghost predicate Closed(bundle: Bundle, files: set<string>) {
    forall file, next :: file in files && next in ImportsOf(bundle, file) ==> next in files
  }

  ghost function Universe(bundle: Bundle, entry: string): (files: set<string>)
    ensures entry in files && Closed(bundle, files)
  {
    {entry} + (set file, i | file in bundle && 0 <= i < |Imports(bundle[file])| :: Imports(bundle[file])[i])
  }

  lemma Fewer(files: set<string>, seen: set<string>, file: string)
    requires file in files && file !in seen
    ensures |files - (seen + {file})| < |files - seen|
  {
    assert files - seen == (files - (seen + {file})) + {file};
  }

  /** The files the search still collects, in its order: a stack, last in first out, of files to look at. */
  ghost function CollectedFrom(bundle: Bundle, stack: seq<string>, seen: set<string>, files: set<string>): seq<string>
    requires Closed(bundle, files) && forall file :: file in stack ==> file in files
    decreases |files - seen|, |stack|
  {
    if stack == [] then []
    else
      var file, rest := stack[|stack| - 1], stack[..|stack| - 1];
      if file in seen then CollectedFrom(bundle, rest, seen, files)
      else
        Fewer(files, seen, file);
        if file !in bundle then CollectedFrom(bundle, rest, seen + {file}, files)
        else [file] + CollectedFrom(bundle, rest + Imports(bundle[file]), seen + {file}, files)
  }

  ghost function Collected(bundle: Bundle, entry: string): seq<string> {
    CollectedFrom(bundle, [entry], {}, Universe(bundle, entry))
  }

  /** `file` can be reached from one of the stack's files by a path that avoids `seen`. */
  ghost predicate Reachable(bundle: Bundle, stack: seq<string>, seen: set<string>, file: string) {
    exists path :: |path| > 0 && path[0] in stack && path[|path| - 1] == file && IsPath(bundle, path) &&
                   forall k :: 0 <= k < |path| ==> path[k] !in seen
  }

  lemma ReachableIs(bundle: Bundle, stack: seq<string>, seen: set<string>, path: seq<string>, file: string)
    requires |path| > 0 && path[0] in stack && path[|path| - 1] == file && IsPath(bundle, path)
    requires forall k :: 0 <= k < |path| ==> path[k] !in seen
    ensures Reachable(bundle, stack, seen, file)
  {
  }

  /** Looking at an unseen file moves what is reachable through it onto the stack. */
  lemma ReachableStep(bundle: Bundle, rest: seq<string>, file: string, seen: set<string>, target: string)
    ensures Reachable(bundle, rest + [file], seen, target) <==>
            if file in seen then Reachable(bundle, rest, seen, target)
            else target == file || Reachable(bundle, rest + ImportsOf(bundle, file), seen + {file}, target)
  {
    if Reachable(bundle, rest + [file], seen, target) { ReachableForward(bundle, rest, file, seen, target); }
    if file in seen {
      if Reachable(bundle, rest, seen, target) {
        var path :| |path| > 0 && path[0] in rest && path[|path| - 1] == target && IsPath(bundle, path) &&
                    forall k :: 0 <= k < |path| ==> path[k] !in seen;
        ReachableIs(bundle, rest + [file], seen, path, target);
      }
    } else if target == file {
      ReachableIs(bundle, rest + [file], seen, [file], target);
    } else if Reachable(bundle, rest + ImportsOf(bundle, file), seen + {file}, target) {
      ReachableBackward(bundle, rest, file, seen, target);
    }
  }

  lemma ReachableForward(bundle: Bundle, rest: seq<string>, file: string, seen: set<string>, target: string)
    requires Reachable(bundle, rest + [file], seen, target)
    ensures if file in seen then Reachable(bundle, rest, seen, target)
            else target == file || Reachable(bundle, rest + ImportsOf(bundle, file), seen + {file}, target)
  {
    var path :| |path| > 0 && path[0] in rest + [file] && path[|path| - 1] == target && IsPath(bundle, path) &&
                forall k :: 0 <= k < |path| ==> path[k] !in seen;
    if file in seen {
      ReachableIs(bundle, rest, seen, path, target);
    } else if target != file {
      var tail := AfterLast(bundle, path, file);
      ReachableIs(bundle, rest + ImportsOf(bundle, file), seen + {file}, tail, target);
    }
  }

  lemma ReachableBackward(bundle: Bundle, rest: seq<string>, file: string, seen: set<string>, target: string)
    requires file !in seen && Reachable(bundle, rest + ImportsOf(bundle, file), seen + {file}, target)
    ensures Reachable(bundle, rest + [file], seen, target)
  {
    var path :| |path| > 0 && path[0] in rest + ImportsOf(bundle, file) && path[|path| - 1] == target &&
        IsPath(bundle, path) &&
                forall k :: 0 <= k < |path| ==> path[k] !in seen + {file};
    if path[0] in rest {
      ReachableIs(bundle, rest + [file], seen, path, target);
    } else {
      assert IsPath(bundle, [file] + path);
      ReachableIs(bundle, rest + [file], seen, [file] + path, target);
    }
  }

  /** The part of the path behind the last `file`, which starts at an import of it. */
  lemma {:induction false} AfterLast(bundle: Bundle, path: seq<string>, file: string) returns (tail: seq<string>)
    requires |path| > 0 && IsPath(bundle, path) && path[|path| - 1] != file
    ensures |tail| > 0 && IsPath(bundle, tail) && tail[|tail| - 1] == path[|path| - 1]
    ensures forall k :: 0 <= k < |tail| ==> tail[k] != file && tail[k] in path
    ensures if file in path then tail[0] in ImportsOf(bundle, file) else tail == path
  {
    if file !in path {
      tail := path;
    } else {
      assert IsPath(bundle, path[1..]);
      if file in path[1..] {
        tail := AfterLast(bundle, path[1..], file);
      } else {
        tail := path[1..];
      }
    }
  }

  lemma {:induction false} CollectedFromIsReachable(bundle: Bundle, stack: seq<string>, seen: set<string>,
      files: set<string>, target: string)
    requires Closed(bundle, files) && forall file :: file in stack ==> file in files
    ensures target in CollectedFrom(bundle, stack, seen, files) <==>
            target in bundle && Reachable(bundle, stack, seen, target)
    decreases |files - seen|, |stack|
  {
    if stack != [] {
      var file, rest := stack[|stack| - 1], stack[..|stack| - 1];
      assert stack == rest + [file];
      ReachableStep(bundle, rest, file, seen, target);
      if file in seen {
        CollectedFromIsReachable(bundle, rest, seen, files, target);
      } else {
        Fewer(files, seen, file);
        CollectedFromIsReachable(bundle, rest + ImportsOf(bundle, file), seen + {file}, files, target);
        assert file !in bundle ==> rest + ImportsOf(bundle, file) == rest;
      }
    }
  }

  ghost predicate AreNew(bundle: Bundle, found: seq<string>, seen: set<string>) {
    && (forall i :: 0 <= i < |found| ==> found[i] in bundle && found[i] !in seen)
    && (forall i, j :: 0 <= i < j < |found| ==> found[i] != found[j])
  }

  lemma {:induction false} CollectedFromIsNew(bundle: Bundle, stack: seq<string>, seen: set<string>, files: set<string>)
    requires Closed(bundle, files) && forall file :: file in stack ==> file in files
    ensures AreNew(bundle, CollectedFrom(bundle, stack, seen, files), seen)
    decreases |files - seen|, |stack|
  {
    if stack != [] {
      var file, rest := stack[|stack| - 1], stack[..|stack| - 1];
      if file in seen {
        CollectedFromIsNew(bundle, rest, seen, files);
      } else {
        Fewer(files, seen, file);
        if file !in bundle {
          CollectedFromIsNew(bundle, rest, seen + {file}, files);
          assert AreNew(bundle, CollectedFrom(bundle, stack, seen, files), seen);
        } else {
          CollectedFromIsNew(bundle, rest + Imports(bundle[file]), seen + {file}, files);
          assert AreNew(bundle, [file] + CollectedFrom(bundle, rest + Imports(bundle[file]), seen + {file}, files),
                 seen);
        }
      }
    }
  }

  /** The search finds every chunk the entry reaches, through cycles too, once each and nothing else. */
  lemma CollectedIsReachable(bundle: Bundle, entry: string, target: string)
    ensures target in Collected(bundle, entry) <==> target in bundle && Reaches(bundle, entry, target)
    ensures forall i, j :: 0 <= i < j < |Collected(bundle, entry)| ==>
            Collected(bundle, entry)[i] != Collected(bundle, entry)[j]
  {
    CollectedFromIsReachable(bundle, [entry], {}, Universe(bundle, entry), target);
    CollectedFromIsNew(bundle, [entry], {}, Universe(bundle, entry));
    if Reachable(bundle, [entry], {}, target) {
      var path :| |path| > 0 && path[0] in [entry] && path[|path| - 1] == target && IsPath(bundle, path);
      assert path[0] == entry;
    }
    if Reaches(bundle, entry, target) {
      var path :| |path| > 0 && path[0] == entry && path[|path| - 1] == target && IsPath(bundle, path);
      ReachableIs(bundle, [entry], {}, path, target);
    }
  }

  lemma Moved<T>(found: seq<T>, next: T, later: seq<T>)
    ensures found + ([next] + later) == (found + [next]) + later
  {
  }

  method CollectReachableChunks(bundle: Bundle, entry: string) returns (reachable: seq<string>)
    ensures reachable == Collected(bundle, entry)
  {
    hide Universe;
    var seen: set<string> := {};
    var stack := [entry];
    ghost var files := Universe(bundle, entry);
    reachable := [];
    while |stack| > 0
      invariant forall file :: file in stack ==> file in files
      invariant reachable + CollectedFrom(bundle, stack, seen, files) == Collected(bundle, entry)
      decreases |files - seen|, |stack|
    {
      var file := stack[|stack| - 1];
      stack := stack[..|stack| - 1];
      if file in seen { continue; }
      Fewer(files, seen, file);
      seen := seen + {file};
      if file !in bundle { continue; }
      assert forall next :: next in Imports(bundle[file]) ==> next in files by { assert file in files; }
      ghost var later := CollectedFrom(bundle, stack + Imports(bundle[file]), seen, files);
      Moved(reachable, file, later);
      reachable := reachable + [file];
      stack := Push(stack, Imports(bundle[file]));
    }
  }

  method Push(stack: seq<string>, files: seq<string>) returns (pushed: seq<string>)
    ensures pushed == stack + files
  {
    pushed := stack;
    for k := 0 to |files|
      invariant pushed == stack + files[..k]
    {
      pushed := pushed + [files[k]];
    }
  }

  /** The text matches the pattern of a require of electron or of one of its subpaths. */
  type Pattern = string -> bool

  datatype Runtime = PlainNode | WorkerThread

  datatype Violation = Violation(entryName: string, file: string, runtime: Runtime)

  datatype Guarded = Guarded(entryName: string, runtime: Runtime)

  /** The first file whose code requires electron. */
  function FirstBad(bundle: Bundle, files: seq<string>, requiresElectron: Pattern): Option<string>
    reads bundle.Values
  {
    if files == [] then None
    else if files[0] in bundle && requiresElectron(bundle[files[0]].code) then Some(files[0])
    else FirstBad(bundle, files[1..], requiresElectron)
  }

  /** The scan of one entry without the cache. */
  ghost function ScanEntry(bundle: Bundle, entry: string, guarded: Guarded,
      requiresElectron: Pattern): Option<Violation>
    reads bundle.Values
  {
    var bad := FirstBad(bundle, Collected(bundle, entry), requiresElectron);
    if bad.None? then None else Some(Violation(guarded.entryName, bad.value, guarded.runtime))
  }

  /** The scan of the guarded entries, in order, up to the first violation; absent entries are skipped. */
  ghost function ScanEntries(bundle: Bundle, entries: map<string, Chunk>, guarded: seq<Guarded>,
      requiresElectron: Pattern)
      : Option<Violation>
    reads bundle.Values
  {
    if guarded == [] then None
    else
      var first := if guarded[0].entryName in entries
                   then ScanEntry(bundle, entries[guarded[0].entryName].fileName, guarded[0], requiresElectron)
                   else None;
      if first.Some? then first else ScanEntries(bundle, entries, guarded[1..], requiresElectron)
  }

  lemma {:induction false} ScanOfBoth(bundle: Bundle, entries: map<string, Chunk>, a: seq<Guarded>, b: seq<Guarded>,
                                      requiresElectron: Pattern)
    ensures ScanEntries(bundle, entries, a + b, requiresElectron) ==
            var first := ScanEntries(bundle, entries, a, requiresElectron);
            if first.Some? then first else ScanEntries(bundle, entries, b, requiresElectron)
  {
    if a == [] {
      assert a + b == b;
    } else {
      assert (a + b)[1..] == a[1..] + b;
      ScanOfBoth(bundle, entries, a[1..], b, requiresElectron);
    }
  }

  /** Every chunk stands under its own file name. */
  predicate IsKeyed(bundle: Bundle) {
    forall file :: file in bundle ==> bundle[file].fileName == file
  }

  /** The guard, with the code each chunk had when it was found free of electron. */
  class Guard {
    const bundle: Bundle
    const requiresElectron: Pattern
    var electronFree: map<Chunk, string>

    /** The recorded code is clean, whatever has become of the chunk's code since. */
    ghost predicate Valid()
      reads this
    {
      IsKeyed(bundle) && forall chunk :: chunk in electronFree ==> !requiresElectron(electronFree[chunk])
    }

    constructor (bundle: Bundle, requiresElectron: Pattern)
      requires IsKeyed(bundle)
      ensures Valid() && this.bundle == bundle && this.requiresElectron == requiresElectron
    {
      this.bundle, this.requiresElectron := bundle, requiresElectron;
      electronFree := map[];
    }

    /** Skips a chunk whose code is the one known to be clean, and still finds what the plain scan finds first. */
    method AssertNoElectronRequire(guarded: Guarded, entry: string) returns (violation: Option<Violation>)
      requires Valid()
      modifies this`electronFree
      ensures Valid() && violation == ScanEntry(bundle, entry, guarded, requiresElectron)
    {
      var files := CollectReachableChunks(bundle, entry);
      for i := 0 to |files|
        invariant Valid()
        invariant FirstBad(bundle, files[i..], requiresElectron) == FirstBad(bundle, files, requiresElectron)
      {
        CollectedIsReachable(bundle, entry, files[i]);
        var chunk := bundle[files[i]];
        var code := chunk.code;
        if chunk in electronFree && electronFree[chunk] == code { continue; }
        if requiresElectron(code) { return Some(Violation(guarded.entryName, chunk.fileName, guarded.runtime)); }
        electronFree := electronFree[chunk := code];
      }
      violation := None;
    }

    /** One of the loops over guarded names. */
    method CheckEntries(entries: map<string, Chunk>, guarded: seq<Guarded>) returns (violation: Option<Violation>)
      requires Valid()
      modifies this`electronFree
      ensures Valid() && violation == ScanEntries(bundle, entries, guarded, requiresElectron)
    {
      for i := 0 to |guarded|
        invariant Valid()
        invariant ScanEntries(bundle, entries, guarded[i..], requiresElectron) ==
                  ScanEntries(bundle, entries, guarded, requiresElectron)
      {
        var name := guarded[i].entryName;
        if name !in entries { continue; }
        violation := AssertNoElectronRequire(guarded[i], entries[name].fileName);
        if violation.Some? { return; }
      }
      violation := None;
    }
  }

  /** The chunks by file name; of two with one name the later. */
  function ByFileName(chunks: seq<Chunk>): (bundle: Bundle)
    ensures IsKeyed(bundle)
  {
    if chunks == [] then map[]
    else
      var last := chunks[|chunks| - 1];
      ByFileName(chunks[..|chunks| - 1])[last.fileName := last]
  }

  /** The last chunk with this file name. */
  ghost predicate IsFileAt(chunks: seq<Chunk>, k: nat, file: string) {
    k < |chunks| && chunks[k].fileName == file && forall j :: k < j < |chunks| ==> chunks[j].fileName != file
  }

  lemma {:induction false} ByFileNameIs(chunks: seq<Chunk>, file: string)
    ensures file in ByFileName(chunks) <==> exists k: nat :: IsFileAt(chunks, k, file)
    ensures forall k: nat :: IsFileAt(chunks, k, file) ==>
              file in ByFileName(chunks) && ByFileName(chunks)[file] == chunks[k]
  {
    if chunks != [] {
      var n := |chunks| - 1;
      ByFileNameIs(chunks[..n], file);
      if chunks[n].fileName == file {
        assert IsFileAt(chunks, n, file);
      } else {
        forall k: nat | k < |chunks| ensures IsFileAt(chunks, k, file) <==> k < n && IsFileAt(chunks[..n], k, file) {
          assert forall j :: 0 <= j < n ==> chunks[..n][j] == chunks[j];
        }
      }
    }
  }

  predicate IsEntryNamed(chunk: Chunk, name: string) {
    chunk.isEntry && chunk.name == name && name != ""
  }

  /** The entry chunks by name; of two with one name the later. */
  function EntryByName(chunks: seq<Chunk>): map<string, Chunk> {
    if chunks == [] then map[]
    else
      var last := chunks[|chunks| - 1];
      var before := EntryByName(chunks[..|chunks| - 1]);
      if last.isEntry && last.name != "" then before[last.name := last] else before
  }

  /** The last chunk that is an entry of this name. */
  ghost predicate IsEntryAt(chunks: seq<Chunk>, k: nat, name: string) {
    k < |chunks| && IsEntryNamed(chunks[k], name) && forall j :: k < j < |chunks| ==> !IsEntryNamed(chunks[j], name)
  }

  lemma {:induction false} EntryByNameIs(chunks: seq<Chunk>, name: string)
    ensures name in EntryByName(chunks) <==> exists k: nat :: IsEntryAt(chunks, k, name)
    ensures forall k: nat :: IsEntryAt(chunks, k, name) ==>
            name in EntryByName(chunks) && EntryByName(chunks)[name] == chunks[k]
  {
    if chunks != [] {
      var n := |chunks| - 1;
      EntryByNameIs(chunks[..n], name);
      if IsEntryNamed(chunks[n], name) {
        assert IsEntryAt(chunks, n, name);
      } else {
        forall k: nat | k < |chunks| ensures IsEntryAt(chunks, k, name) <==> k < n && IsEntryAt(chunks[..n], k, name) {
          assert forall j :: 0 <= j < n ==> chunks[..n][j] == chunks[j];
        }
      }
    }
  }

  function Guards(names: seq<string>, runtime: Runtime): (guards: seq<Guarded>)
    ensures |guards| == |names| && forall i :: 0 <= i < |names| ==> guards[i] == Guarded(names[i], runtime)
  {
    seq(|names|, i requires 0 <= i < |names| => Guarded(names[i], runtime))
  }

  /** What the guard finds in a build. */
  ghost function ScanBuild(chunks: seq<Chunk>, plainNode: seq<string>, workers: seq<string>, requiresElectron: Pattern)
      : Option<Violation>
    reads ByFileName(chunks).Values
  {
    ScanEntries(ByFileName(chunks), EntryByName(chunks), Guards(plainNode, PlainNode) + Guards(workers, WorkerThread),
        requiresElectron)
  }

  /** `writeBundle`: both indexes, then the two loops over the names, which share the cache. */
  method WriteBundle(chunks: seq<Chunk>, plainNode: seq<string>, workers: seq<string>, requiresElectron: Pattern)
      returns (violation: Option<Violation>)
    ensures violation == ScanBuild(chunks, plainNode, workers, requiresElectron)
  {
    var byFileName: Bundle := map[];
    var entryByName: map<string, Chunk> := map[];
    for i := 0 to |chunks|
      invariant byFileName == ByFileName(chunks[..i]) && entryByName == EntryByName(chunks[..i])
    {
      assert chunks[..i + 1][..i] == chunks[..i];
      byFileName := byFileName[chunks[i].fileName := chunks[i]];
      if chunks[i].isEntry && chunks[i].name != "" { entryByName := entryByName[chunks[i].name := chunks[i]]; }
    }
    assert chunks[..|chunks|] == chunks;
    ScanOfBoth(byFileName, entryByName, Guards(plainNode, PlainNode), Guards(workers, WorkerThread), requiresElectron);
    var guard := new Guard(byFileName, requiresElectron);
    violation := guard.CheckEntries(entryByName, Guards(plainNode, PlainNode));
    if violation.Some? { return; }
    violation := guard.CheckEntries(entryByName, Guards(workers, WorkerThread));
  }

  predicate IsBad(bundle: Bundle, file: string, requiresElectron: Pattern)
    reads bundle.Values
  {
    file in bundle && requiresElectron(bundle[file].code)
  }

  /** The first file of the scan that requires electron, if there is one. */
  lemma {:induction false} FirstBadIff(bundle: Bundle, files: seq<string>, requiresElectron: Pattern)
    ensures FirstBad(bundle, files, requiresElectron).None? <==>
            forall file :: file in files && file in bundle ==> !requiresElectron(bundle[file].code)
    ensures var bad := FirstBad(bundle, files, requiresElectron);
            bad.Some? ==>
              exists k :: 0 <= k < |files| && files[k] == bad.value && IsBad(bundle, files[k], requiresElectron) &&
                          forall j :: 0 <= j < k ==> !IsBad(bundle, files[j], requiresElectron)
  {
    if files != [] && !(files[0] in bundle && requiresElectron(bundle[files[0]].code)) {
      FirstBadIff(bundle, files[1..], requiresElectron);
    }
  }

  /** The chunk the entry reaches, in the bundle, requires electron. */
  ghost predicate Offends(bundle: Bundle, entry: string, file: string, requiresElectron: Pattern)
    reads bundle.Values
  {
    file in bundle && Reaches(bundle, entry, file) && requiresElectron(bundle[file].code)
  }

  /** The guard lets a bundle pass exactly when no guarded entry in it reaches a chunk that requires electron. */
  lemma {:induction false} PassesIffNoneReached(bundle: Bundle, entries: map<string, Chunk>, guarded: seq<Guarded>,
                                                requiresElectron: Pattern)
    ensures ScanEntries(bundle, entries, guarded, requiresElectron).None? <==>
            forall g, file :: g in guarded && g.entryName in entries ==>
              !Offends(bundle, entries[g.entryName].fileName, file, requiresElectron)
  {
    if guarded != [] {
      PassesIffNoneReached(bundle, entries, guarded[1..], requiresElectron);
      var g := guarded[0];
      assert forall h :: h in guarded <==> h == g || h in guarded[1..];
      if g.entryName in entries {
        EntryPassesIff(bundle, entries[g.entryName].fileName, g, requiresElectron);
      }
    }
  }

  /** No chunk that is the entry of this name reaches one that requires electron. */
  ghost predicate IsClean(chunks: seq<Chunk>, name: string, requiresElectron: Pattern)
    reads ByFileName(chunks).Values
  {
    forall k: nat, file :: IsEntryAt(chunks, k, name) ==>
        !Offends(ByFileName(chunks), chunks[k].fileName, file, requiresElectron)
  }

  lemma CleanIff(chunks: seq<Chunk>, name: string, requiresElectron: Pattern)
    ensures IsClean(chunks, name, requiresElectron) <==>
            (name in EntryByName(chunks) ==>
               forall file :: !Offends(ByFileName(chunks), EntryByName(chunks)[name].fileName, file, requiresElectron))
  {
    hide ByFileName, EntryByName, Offends, IsEntryNamed;
    EntryByNameIs(chunks, name);
    if name in EntryByName(chunks) {
      var entry := EntryByName(chunks)[name].fileName;
      var k: nat :| IsEntryAt(chunks, k, name);
      if IsClean(chunks, name, requiresElectron) {
        forall file ensures !Offends(ByFileName(chunks), entry, file, requiresElectron) {
          assert !Offends(ByFileName(chunks), chunks[k].fileName, file, requiresElectron);
        }
      } else {
        var l: nat, file :| IsEntryAt(chunks, l, name) &&
            Offends(ByFileName(chunks), chunks[l].fileName, file, requiresElectron);
        assert EntryByName(chunks)[name] == chunks[l];
        assert Offends(ByFileName(chunks), entry, file, requiresElectron);
      }
    }
  }

  /** A build passes exactly when every guarded name is clean. */
  lemma BuildPassesIff(chunks: seq<Chunk>, plainNode: seq<string>, workers: seq<string>, requiresElectron: Pattern)
    ensures ScanBuild(chunks, plainNode, workers, requiresElectron).None? <==>
            forall name :: name in plainNode || name in workers ==> IsClean(chunks, name, requiresElectron)
  {
    var guarded := Guards(plainNode, PlainNode) + Guards(workers, WorkerThread);
    GuardedNames(plainNode, workers);
    PassesIffNoneReached(ByFileName(chunks), EntryByName(chunks), guarded, requiresElectron);
    forall name
      ensures IsClean(chunks, name, requiresElectron) <==>
              (name in EntryByName(chunks) ==>
                 forall file ::
                   !Offends(ByFileName(chunks), EntryByName(chunks)[name].fileName, file, requiresElectron))
    {
      CleanIff(chunks, name, requiresElectron);
    }
    hide ByFileName, EntryByName, ScanEntries, Offends, IsClean, Guards;
    if g :| g in guarded && !IsClean(chunks, g.entryName, requiresElectron) {
      var file :| Offends(ByFileName(chunks), EntryByName(chunks)[g.entryName].fileName, file, requiresElectron);
    }
  }

  lemma GuardedNames(plainNode: seq<string>, workers: seq<string>)
    ensures forall name :: name in plainNode || name in workers <==>
                           exists g :: g in Guards(plainNode, PlainNode) + Guards(workers, WorkerThread) &&
                               g.entryName == name
  {
    var guarded := Guards(plainNode, PlainNode) + Guards(workers, WorkerThread);
    forall name | name in plainNode || name in workers ensures exists g :: g in guarded && g.entryName == name {
      if name in plainNode {
        var i :| 0 <= i < |plainNode| && plainNode[i] == name;
        assert guarded[i].entryName == name;
      } else {
        var i :| 0 <= i < |workers| && workers[i] == name;
        assert guarded[|plainNode| + i].entryName == name;
      }
    }
  }

  lemma EntryPassesIff(bundle: Bundle, entry: string, guarded: Guarded, requiresElectron: Pattern)
    ensures ScanEntry(bundle, entry, guarded, requiresElectron).None? <==>
            forall file :: !Offends(bundle, entry, file, requiresElectron)
  {
    var files := Collected(bundle, entry);
    FirstBadIff(bundle, files, requiresElectron);
    if FirstBad(bundle, files, requiresElectron).None? {
      forall file ensures !Offends(bundle, entry, file, requiresElectron) { CollectedIsReachable(bundle, entry, file); }
    } else {
      var bad := FirstBad(bundle, files, requiresElectron).value;
      CollectedIsReachable(bundle, entry, bad);
      assert Offends(bundle, entry, bad, requiresElectron);
    }
  }

  /** The guarded entry is in the bundle and reaches a chunk that requires electron. */
  ghost predicate IsDirty(bundle: Bundle, entries: map<string, Chunk>, g: Guarded, requiresElectron: Pattern)
    reads bundle.Values
  {
    g.entryName in entries && exists file :: Offends(bundle, entries[g.entryName].fileName, file, requiresElectron)
  }

  /** The violation is of the first dirty entry, names a chunk it reaches, and says how it runs. */
  lemma {:induction false} ViolationIs(bundle: Bundle, entries: map<string, Chunk>, guarded: seq<Guarded>,
                                       requiresElectron: Pattern)
    ensures var v := ScanEntries(bundle, entries, guarded, requiresElectron);
            v.Some? ==>
              exists k :: 0 <= k < |guarded| && guarded[k] == Guarded(v.value.entryName, v.value.runtime) &&
                guarded[k].entryName in entries &&
                Offends(bundle, entries[guarded[k].entryName].fileName, v.value.file, requiresElectron) &&
                forall j :: 0 <= j < k ==> !IsDirty(bundle, entries, guarded[j], requiresElectron)
  {
    hide FirstBad, Collected, Offends;
    if guarded != [] {
      var g := guarded[0];
      if g.entryName in entries {
        EntryPassesIff(bundle, entries[g.entryName].fileName, g, requiresElectron);
        NamedOffends(bundle, entries[g.entryName].fileName, g, requiresElectron);
      }
      var v := ScanEntries(bundle, entries, guarded, requiresElectron);
      if v.Some? && (g.entryName !in entries ||
          ScanEntry(bundle, entries[g.entryName].fileName, g, requiresElectron).None?) {
        ViolationIs(bundle, entries, guarded[1..], requiresElectron);
        var k :| 0 <= k < |guarded| - 1 && guarded[1..][k] == Guarded(v.value.entryName, v.value.runtime) &&
          guarded[1..][k].entryName in entries &&
          Offends(bundle, entries[guarded[1..][k].entryName].fileName, v.value.file, requiresElectron) &&
          forall j :: 0 <= j < k ==> !IsDirty(bundle, entries, guarded[1..][j], requiresElectron);
        assert guarded[k + 1] == guarded[1..][k];
        assert forall j :: 1 <= j < k + 1 ==> guarded[j] == guarded[1..][j - 1];
      }
    }
  }

  lemma NamedOffends(bundle: Bundle, entry: string, g: Guarded, requiresElectron: Pattern)
    ensures var v := ScanEntry(bundle, entry, g, requiresElectron);
            v.Some? ==> v.value.entryName == g.entryName && v.value.runtime == g.runtime &&
                        Offends(bundle, entry, v.value.file, requiresElectron)
  {
    var files := Collected(bundle, entry);
    FirstBadIff(bundle, files, requiresElectron);
    var bad := FirstBad(bundle, files, requiresElectron);
    if bad.Some? { CollectedIsReachable(bundle, entry, bad.value); }
  }

  lemma DirtyIff(chunks: seq<Chunk>, g: Guarded, requiresElectron: Pattern)
    ensures IsDirty(ByFileName(chunks), EntryByName(chunks), g, requiresElectron) <==>
            !IsClean(chunks, g.entryName, requiresElectron)
  {
    hide ByFileName, EntryByName, Offends, IsClean;
    CleanIff(chunks, g.entryName, requiresElectron);
  }

  /** In a build the names of plain Node entries come first, then those of worker threads. */
  lemma BuildViolationIs(chunks: seq<Chunk>, plainNode: seq<string>, workers: seq<string>, requiresElectron: Pattern)
    ensures var v := ScanBuild(chunks, plainNode, workers, requiresElectron);
            v.Some? ==>
              exists k :: 0 <= k < |plainNode| + |workers| &&
                v.value.entryName == (plainNode + workers)[k] &&
                    !IsClean(chunks, (plainNode + workers)[k], requiresElectron) &&
                (v.value.runtime == PlainNode <==> k < |plainNode|) &&
                forall j :: 0 <= j < k ==> IsClean(chunks, (plainNode + workers)[j], requiresElectron)
  {
    var guarded := Guards(plainNode, PlainNode) + Guards(workers, WorkerThread);
    var bundle, entries := ByFileName(chunks), EntryByName(chunks);
    ViolationIs(bundle, entries, guarded, requiresElectron);
    forall j | 0 <= j < |guarded|
      ensures guarded[j].entryName == (plainNode + workers)[j] && (guarded[j].runtime == PlainNode <==> j < |plainNode|)
      ensures IsDirty(bundle, entries, guarded[j], requiresElectron) <==>
              !IsClean(chunks, (plainNode + workers)[j], requiresElectron)
    {
      var name := (plainNode + workers)[j];
      assert guarded[j].entryName == name;
      DirtyIff(chunks, guarded[j], requiresElectron);
    }
    hide ByFileName, EntryByName, Offends, IsClean, IsDirty, ScanEntries;
  }
}
