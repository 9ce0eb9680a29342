/** `StorageCacheBase.DeleteFolderContentsAsync`: best-effort recursive
    deletion of a folder's contents.

    A folder either can be listed or not; a file or folder that is locked
    cannot be deleted. Every failure is swallowed: a folder that cannot be
    listed is left as it is, a locked file stays, and a subfolder stays when
    deleting it fails (because it is locked or because something locked
    survived inside it). */
module FolderCleanup {

  datatype FileItem = FileItem(name: string, locked: bool)

  datatype Folder = Folder(files: seq<FileItem>, subs: seq<Folder>, canList: bool, locked: bool)

  /** A cleaned subfolder that `DeleteAsync` removes: not locked and nothing
      left inside. */
  predicate Removable(f: Folder)
  {
    !f.locked && f.files == [] && f.subs == []
  }

  /** The files whose deletion fails. */
  function LockedFiles(files: seq<FileItem>): (r: seq<FileItem>)
    ensures forall i :: 0 <= i < |r| ==> r[i].locked && r[i] in files
    ensures forall i :: 0 <= i < |files| && files[i].locked ==> files[i] in r
    ensures |r| <= |files|
  {
    if files == [] then []
    else if files[0].locked then [files[0]] + LockedFiles(files[1..])
    else LockedFiles(files[1..])
  }

  /** The cleaned subfolders whose deletion fails, in listing order. */
  function Survivors(subs: seq<Folder>): (r: seq<Folder>)
    ensures forall i :: 0 <= i < |r| ==> !Removable(r[i]) && r[i] in subs
    ensures forall i :: 0 <= i < |subs| && !Removable(subs[i]) ==> subs[i] in r
    ensures |r| <= |subs|
  {
    if subs == [] then []
    else if Removable(subs[0]) then Survivors(subs[1..])
    else [subs[0]] + Survivors(subs[1..])
  }

  /** The folder after `DeleteFolderContentsAsync(folder)`: delete every file,
      then for every subfolder clean it recursively and delete it. */
  function Clean(f: Folder): (r: Folder)
    ensures r.canList == f.canList && r.locked == f.locked
    ensures !f.canList ==> r == f
    ensures f.canList ==> forall i :: 0 <= i < |r.files| ==> r.files[i].locked
    ensures f.canList ==> forall i :: 0 <= i < |r.subs| ==> !Removable(r.subs[i])
    ensures |r.files| <= |f.files| && |r.subs| <= |f.subs|
    ensures f.canList ==> r.files == LockedFiles(f.files)
    ensures f.canList ==>
      r.subs == Survivors(seq(|f.subs|, i requires 0 <= i < |f.subs| => Clean(f.subs[i])))
  {
    if !f.canList then f
    else
      var cleaned := seq(|f.subs|, i requires 0 <= i < |f.subs| => Clean(f.subs[i]));
      Folder(LockedFiles(f.files), Survivors(cleaned), f.canList, f.locked)
  }

  /** Nothing in the tree is locked and every folder can be listed. */
  ghost predicate Unlocked(f: Folder)
  {
    && f.canList
    && (forall i :: 0 <= i < |f.files| ==> !f.files[i].locked)
    && (forall i :: 0 <= i < |f.subs| ==> !f.subs[i].locked && Unlocked(f.subs[i]))
  }

  /** When nothing is locked and everything can be listed, the folder ends
      up empty. */
  lemma {:induction false} CleanEmpties(f: Folder)
    requires Unlocked(f)
    ensures Clean(f).files == [] && Clean(f).subs == []
  {
    var cleaned := seq(|f.subs|, i requires 0 <= i < |f.subs| => Clean(f.subs[i]));
    forall i | 0 <= i < |f.subs| ensures Removable(cleaned[i]) {
      CleanEmpties(f.subs[i]);
    }
    SurvivorsNone(cleaned);
    assert Clean(f).subs == Survivors(cleaned);
    LockedFilesNone(f.files);
  }

  /** With no locked file, every file is deleted. */
  lemma {:induction false} LockedFilesNone(files: seq<FileItem>)
    requires forall i :: 0 <= i < |files| ==> !files[i].locked
    ensures LockedFiles(files) == []
  {
    if files != [] {
      LockedFilesNone(files[1..]);
    }
  }

  /** A sequence whose members all survive is its own survivors. */
  lemma {:induction false} SurvivorsAll(subs: seq<Folder>)
    requires forall i :: 0 <= i < |subs| ==> !Removable(subs[i])
    ensures Survivors(subs) == subs
  {
    if subs != [] {
      SurvivorsAll(subs[1..]);
    }
  }

  /** Only locked files are left, so cleaning again deletes nothing more. */
  lemma {:induction false} LockedFilesIdempotent(files: seq<FileItem>)
    requires forall i :: 0 <= i < |files| ==> files[i].locked
    ensures LockedFiles(files) == files
  {
    if files != [] {
      LockedFilesIdempotent(files[1..]);
    }
  }

  /** Cleaning twice is cleaning once: whatever survived the first pass
      survives the second unchanged. */
  lemma {:induction false} CleanIdempotent(f: Folder)
    ensures Clean(Clean(f)) == Clean(f)
  {
    if f.canList {
      var c := Clean(f);
      var cleaned := seq(|f.subs|, i requires 0 <= i < |f.subs| => Clean(f.subs[i]));
      assert c.subs == Survivors(cleaned);
      forall i | 0 <= i < |c.subs| ensures Clean(c.subs[i]) == c.subs[i] {
        assert c.subs[i] in cleaned;
        var j :| 0 <= j < |cleaned| && cleaned[j] == c.subs[i];
        CleanIdempotent(f.subs[j]);
      }
      var again := seq(|c.subs|, i requires 0 <= i < |c.subs| => Clean(c.subs[i]));
      assert again == c.subs;
      SurvivorsAll(c.subs);
      LockedFilesIdempotent(c.files);
    }
  }

  /** A sequence whose members are all removable leaves no survivors. */
  lemma {:induction false} SurvivorsNone(subs: seq<Folder>)
    requires forall i :: 0 <= i < |subs| ==> Removable(subs[i])
    ensures Survivors(subs) == []
  {
    if subs != [] {
      SurvivorsNone(subs[1..]);
    }
  }
}
