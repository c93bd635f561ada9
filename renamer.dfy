// The two rename passes that follow the conversion (src/main.ts:247-286,
// src/importer.ts:55-85): every id-bearing folder loses its id, and every
// file that still carries an id is moved to `<parent>/<name> <i>.md` for
// the first free `i` from 2 to 10.

module Renamer {
  import opened Strings
  import opened NotionId
  import opened Vault

  // ---------------------------------------------------------------------
  // Folders

  /** `(folder.parent?.path ?? '') + '/' + stripNotionId(folder.name)` */
  function FolderTarget(folder: Item): String {
    ParentPath(folder) + "/" + StripNotionId(folder.name)
  }

  /** The paths after a pass, and whether every rename of the pass ran: a
      rename that fails inside the awaited loop throws out of the import. */
  datatype PassResult = PassResult(paths: set<String>, completed: bool)

  /** The folder loop after visiting `folders` in order. */
  function FolderPass(paths: set<String>, folders: seq<Item>): PassResult
    decreases |folders|
  {
    if |folders| == 0 then PassResult(paths, true)
    else
      var before := FolderPass(paths, folders[..|folders| - 1]);
      if !before.completed then before
      else
        var last := folders[|folders| - 1];
        var r := Rename(before.paths, last.path, FolderTarget(last));
        PassResult(r.1, r.0)
  }

  /** `for (let folder of folders) await app.vault.rename(...)` */
  method RenameFolders(paths: set<String>, folders: seq<Item>) returns (result: set<String>, completed: bool)
    ensures PassResult(result, completed) == FolderPass(paths, folders)
  {
    result, completed := paths, true;
    var n := 0;
    while n < |folders| && completed
      invariant n <= |folders|
      invariant PassResult(result, completed) == FolderPass(paths, folders[..n])
    {
      assert folders[..n + 1][..n] == folders[..n];
      var folder := folders[n];
      var r := Rename(result, folder.path, FolderTarget(folder));
      result, completed := r.1, r.0;
      n := n + 1;
    }
    AbortedStays(paths, folders, n);
  }

  /** Once a rename has failed, later folders are never visited. */
  lemma {:induction false} AbortedStays(paths: set<String>, folders: seq<Item>, n: nat)
    requires n <= |folders|
    requires n < |folders| ==> !FolderPass(paths, folders[..n]).completed
    ensures FolderPass(paths, folders) == FolderPass(paths, folders[..n])
    decreases |folders| - n
  {
    if n < |folders| {
      assert folders[..n + 1][..n] == folders[..n];
      AbortedStays(paths, folders, n + 1);
    } else {
      assert folders[..n] == folders;
    }
  }

  function Sources(items: seq<Item>): set<String>
    decreases |items|
  {
    if |items| == 0 then {} else Sources(items[..|items| - 1]) + {items[|items| - 1].path}
  }

  function FolderTargets(folders: seq<Item>): set<String>
    decreases |folders|
  {
    if |folders| == 0 then {}
    else FolderTargets(folders[..|folders| - 1]) + {FolderTarget(folders[|folders| - 1])}
  }

  /** The new names collide with nothing: no existing path, no other new
      name, no folder of the pass. */
  predicate CollisionFree(paths: set<String>, folders: seq<Item>) {
    (forall i :: 0 <= i < |folders| ==> FolderTarget(folders[i]) !in paths)
    && (forall i, j :: 0 <= i < j < |folders| ==> FolderTarget(folders[i]) != FolderTarget(folders[j]))
    && (forall i, j :: 0 <= i < |folders| && 0 <= j < |folders| ==> FolderTarget(folders[i]) != folders[j].path)
  }

  /** When the new names collide with nothing, the pass completes and
      replaces exactly the folders' paths by their new paths. */
  lemma {:induction false} FolderPassMoves(paths: set<String>, folders: seq<Item>)
    requires CollisionFree(paths, folders)
    ensures FolderPass(paths, folders) == PassResult(paths - Sources(folders) + FolderTargets(folders), true)
    decreases |folders|
  {
    if |folders| > 0 {
      var init := folders[..|folders| - 1];
      CollisionFreePrefix(paths, folders);
      FolderPassMoves(paths, init);
      FolderPassExtends(paths, folders);
    } else {
      assert Sources(folders) == {} && FolderTargets(folders) == {};
      assert paths - {} + {} == paths;
    }
  }

  /** Dropping the last folder keeps the pass collision-free, and the last
      folder's new name collides with none of the earlier ones. */
  lemma CollisionFreePrefix(paths: set<String>, folders: seq<Item>)
    requires CollisionFree(paths, folders) && |folders| > 0
    ensures var n := |folders| - 1;
            CollisionFree(paths, folders[..n])
            && FolderTarget(folders[n]) !in paths
            && FolderTarget(folders[n]) !in FolderTargets(folders[..n])
            && folders[n].path !in FolderTargets(folders[..n])
  {
    var n := |folders| - 1;
    var init := folders[..n];
    assert forall i :: 0 <= i < n ==> init[i] == folders[i];
    LastTargetFresh(paths, folders);
  }

  lemma LastTargetFresh(paths: set<String>, folders: seq<Item>)
    requires CollisionFree(paths, folders) && |folders| > 0
    ensures var n := |folders| - 1;
            FolderTarget(folders[n]) !in FolderTargets(folders[..n])
            && folders[n].path !in FolderTargets(folders[..n])
  {
    var n := |folders| - 1;
    var init := folders[..n];
    TargetsOf(init);
    forall i | 0 <= i < n
      ensures FolderTarget(init[i]) != FolderTarget(folders[n]) && FolderTarget(init[i]) != folders[n].path
    {
      assert init[i] == folders[i];
    }
  }

  /** One more collision-free rename extends the moved sets. */
  lemma FolderPassExtends(paths: set<String>, folders: seq<Item>)
    requires |folders| > 0
    requires var n := |folders| - 1;
             FolderPass(paths, folders[..n]) == PassResult(paths - Sources(folders[..n]) + FolderTargets(folders[..n]), true)
             && FolderTarget(folders[n]) !in paths
             && FolderTarget(folders[n]) !in FolderTargets(folders[..n])
             && folders[n].path !in FolderTargets(folders[..n])
    ensures FolderPass(paths, folders) == PassResult(paths - Sources(folders) + FolderTargets(folders), true)
  {
    var n := |folders| - 1;
    var init, last := folders[..n], folders[n];
    var t := FolderTarget(last);
    MoveOne(paths, Sources(init), FolderTargets(init), last.path, t);
    FolderPassStep(paths, folders, paths - Sources(init) + FolderTargets(init));
    assert Sources(folders) == Sources(init) + {last.path};
    assert FolderTargets(folders) == FolderTargets(init) + {t};
  }

  /** One more successful folder rename. */
  lemma FolderPassStep(paths: set<String>, folders: seq<Item>, before: set<String>)
    requires |folders| > 0
    requires FolderPass(paths, folders[..|folders| - 1]) == PassResult(before, true)
    requires FolderTarget(folders[|folders| - 1]) !in before
    ensures FolderPass(paths, folders) ==
            PassResult(before - {folders[|folders| - 1].path} + {FolderTarget(folders[|folders| - 1])}, true)
  {
  }

  /** Set bookkeeping of one move. */
  lemma MoveOne(paths: set<String>, sources: set<String>, targets: set<String>, from: String, to: String)
    requires to !in paths && to !in targets && from !in targets
    ensures to !in paths - sources + targets
    ensures paths - sources + targets - {from} + {to} == paths - (sources + {from}) + (targets + {to})
  {
  }

  lemma {:induction false} TargetsOf(folders: seq<Item>)
    ensures forall t :: t in FolderTargets(folders) ==> exists i :: 0 <= i < |folders| && FolderTarget(folders[i]) == t
    decreases |folders|
  {
    if |folders| > 0 {
      var n := |folders| - 1;
      TargetsOf(folders[..n]);
      forall t | t in FolderTargets(folders)
        ensures exists i :: 0 <= i < |folders| && FolderTarget(folders[i]) == t
      {
        var init := folders[..n];
        assert FolderTargets(folders) == FolderTargets(init) + {FolderTarget(folders[n])};
        if t != FolderTarget(folders[n]) {
          var i :| 0 <= i < n && FolderTarget(init[i]) == t;
          assert FolderTarget(folders[i]) == t;
        }
      }
    }
  }

  lemma {:induction false} SourcesOf(items: seq<Item>)
    ensures forall s :: s in Sources(items) ==> exists i :: 0 <= i < |items| && items[i].path == s
    decreases |items|
  {
    if |items| > 0 {
      var n := |items| - 1;
      SourcesOf(items[..n]);
      forall s | s in Sources(items) ensures exists i :: 0 <= i < |items| && items[i].path == s {
        var init := items[..n];
        assert Sources(items) == Sources(init) + {items[n].path};
        if s != items[n].path {
          var i :| 0 <= i < n && init[i].path == s;
          assert items[i].path == s;
        }
      }
    }
  }

  /** A folder keeps its parent and loses exactly its id: its name is the
      new last segment, an optional space, the id and the extension. */
  lemma FolderTargetDropsId(folder: Item)
    requires IsNotionId(folder.name)
    ensures FolderTarget(folder) == ParentPath(folder) + "/" + StripNotionId(folder.name)
    ensures GetNotionId(folder.name).Some?
    ensures var stripped := StripNotionId(folder.name);
            folder.name == stripped + " " + GetNotionId(folder.name).value + KnownExtension(folder.name)
            || folder.name == stripped + GetNotionId(folder.name).value + KnownExtension(folder.name)
  {
    StripExtractAgree(folder.name);
  }

  // ---------------------------------------------------------------------
  // Files that still carry an id

  /** `${parent}/${stripNotionId(file.name)} ${i}.md` */
  function SuffixTarget(file: Item, i: nat): String {
    ParentPath(file) + "/" + StripNotionId(file.name) + " " + NatToString(i) + ".md"
  }

  /** The nine candidate paths of one file are pairwise different, so each
      attempt of the retry loop tries a new path. */
  lemma SuffixTargetsDistinct(file: Item, i: nat, j: nat)
    requires SuffixTarget(file, i) == SuffixTarget(file, j)
    ensures i == j
  {
    var p := ParentPath(file) + "/" + StripNotionId(file.name) + " ";
    var a, b := NatToString(i), NatToString(j);
    assert SuffixTarget(file, i) == p + a + ".md";
    assert SuffixTarget(file, j) == p + b + ".md";
    assert a == SuffixTarget(file, i)[|p|..|p| + |a|];
    assert b == SuffixTarget(file, j)[|p|..|p| + |b|];
    NatToStringInjective(i, j);
  }

  datatype Retry = Renamed(suffix: nat) | GaveUp

  /** The first suffix from `i` to 10 whose path is free. */
  function FirstFree(paths: set<String>, file: Item, i: nat): Retry
    decreases 11 - i
  {
    if i > 10 then GaveUp
    else if SuffixTarget(file, i) !in paths then Renamed(i)
    else FirstFree(paths, file, i + 1)
  }

  /** The retry finds the smallest free suffix in 2..10, or reports that
      all nine are taken. */
  lemma {:induction false} FirstFreeIsFirst(paths: set<String>, file: Item, i: nat)
    requires 2 <= i
    ensures FirstFree(paths, file, i).Renamed? ==>
              var k := FirstFree(paths, file, i).suffix;
              i <= k <= 10 && SuffixTarget(file, k) !in paths
              && forall j :: i <= j < k ==> SuffixTarget(file, j) in paths
    ensures FirstFree(paths, file, i).GaveUp? <==> forall j :: i <= j <= 10 ==> SuffixTarget(file, j) in paths
    decreases 11 - i
  {
    if i <= 10 && SuffixTarget(file, i) in paths {
      assert FirstFree(paths, file, i) == FirstFree(paths, file, i + 1);
      FirstFreeIsFirst(paths, file, i + 1);
    }
  }

  /** The `while (true)` loop for one file: try suffix 2, 3, ... until a
      rename succeeds or the suffix passes 10. */
  method RetryWithSuffix(paths: set<String>, file: Item) returns (result: set<String>, outcome: Retry, attempts: nat)
    ensures outcome == FirstFree(paths, file, 2)
    ensures outcome.Renamed? ==>
              result == paths - {file.path} + {SuffixTarget(file, outcome.suffix)} && attempts == outcome.suffix - 1
    ensures outcome.GaveUp? ==> result == paths && attempts == 9
    ensures 1 <= attempts <= 9
  {
    var i := 2;
    attempts := 0;
    while true
      invariant 2 <= i <= 10 && attempts == i - 2
      invariant FirstFree(paths, file, i) == FirstFree(paths, file, 2)
      decreases 10 - i
    {
      attempts := attempts + 1;
      var r := Rename(paths, file.path, SuffixTarget(file, i));
      if r.0 {
        result, outcome := r.1, Renamed(i);
        break;
      }
      i := i + 1;
      if i > 10 {
        result, outcome := paths, GaveUp;
        break;
      }
    }
  }

  /** The paths after one file's retry loop. */
  function RetryPaths(paths: set<String>, file: Item): set<String> {
    match FirstFree(paths, file, 2)
    case Renamed(k) => paths - {file.path} + {SuffixTarget(file, k)}
    case GaveUp => paths
  }

  /** The duplicate-file loop after visiting `files` in order. */
  function DuplicatePass(paths: set<String>, files: seq<Item>): set<String>
    decreases |files|
  {
    if |files| == 0 then paths
    else RetryPaths(DuplicatePass(paths, files[..|files| - 1]), files[|files| - 1])
  }

  /** `for (let file of duplicateFiles) { let i = 2; while (true) ... }` */
  method RenameDuplicates(paths: set<String>, files: seq<Item>) returns (result: set<String>)
    ensures result == DuplicatePass(paths, files)
  {
    result := paths;
    for n := 0 to |files|
      invariant result == DuplicatePass(paths, files[..n])
    {
      assert files[..n + 1][..n] == files[..n];
      var renamed, outcome, attempts := RetryWithSuffix(result, files[n]);
      result := renamed;
    }
    assert files[..|files|] == files;
  }

  /** The suffix targets a file may be moved to. */
  predicate IsSuffixTargetOf(files: seq<Item>, p: String) {
    exists i, k :: 0 <= i < |files| && 2 <= k <= 10 && p == SuffixTarget(files[i], k)
  }

  /** Nothing else changes: a path that is not one of the files survives
      the pass, and every new path is a suffix target of one of them. */
  lemma {:induction false} DuplicatePassFrame(paths: set<String>, files: seq<Item>)
    ensures forall p :: p in paths && p !in Sources(files) ==> p in DuplicatePass(paths, files)
    ensures forall p :: p in DuplicatePass(paths, files) && p !in paths ==> IsSuffixTargetOf(files, p)
    decreases |files|
  {
    if |files| > 0 {
      var n := |files| - 1;
      var init := files[..n];
      DuplicatePassFrame(paths, init);
      var before := DuplicatePass(paths, init);
      assert DuplicatePass(paths, files) == RetryPaths(before, files[n]);
      assert Sources(files) == Sources(init) + {files[n].path};
      RetryPathsFrame(before, files[n]);
      forall p | p in DuplicatePass(paths, files) && p !in paths ensures IsSuffixTargetOf(files, p) {
        if p in before {
          assert IsSuffixTargetOf(init, p);
          var i, k :| 0 <= i < n && 2 <= k <= 10 && p == SuffixTarget(init[i], k);
          assert files[i] == init[i];
        } else {
          var k :| 2 <= k <= 10 && p == SuffixTarget(files[n], k);
          assert IsSuffixTargetOf(files, p) by {
            assert 0 <= n < |files| && p == SuffixTarget(files[n], k);
          }
        }
      }
    }
  }

  /** One file's retry loop removes at most that file's path and adds at
      most one of its suffix targets. */
  lemma RetryPathsFrame(paths: set<String>, file: Item)
    ensures forall p :: p in paths && p != file.path ==> p in RetryPaths(paths, file)
    ensures forall p :: p in RetryPaths(paths, file) && p !in paths ==>
              exists k :: 2 <= k <= 10 && p == SuffixTarget(file, k)
  {
    FirstFreeIsFirst(paths, file, 2);
  }
}
