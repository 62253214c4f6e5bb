/**
 * The avatar lifecycle coordinator of accounts/signals.py: the pre-save,
 * post-save and post-delete hooks on `User`, acting on the file storage.
 *
 * `AvatarLifecycle` holds the storage (the set of stored file names), the
 * committed `User` rows by primary key, and the mark the pre-save hook leaves
 * on the instance (`_old_profile_image_to_delete`). The hooks are its
 * methods; `Commit` and `DeleteRow` stand for the ORM write between them, and
 * `Save` and `Delete` run one whole mutation, where the end-to-end guarantees
 * are stated.
 */
module Signals {
  import opened Wrappers
  import opened PosixPath
  import opened Models
  import Images

  /** `User.objects.get(pk=instance.pk)`: None for a new instance or when no row has that pk. */
  function PreviousRecord(table: map<Pk, User>, pk: Option<Pk>): (previous: Option<User>)
    ensures previous.None? <==> pk.None? || pk.value !in table
    ensures previous.Some? ==> previous.value == table[pk.value]
  {
    if pk.Some? && pk.value in table then Some(table[pk.value]) else None
  }

  /**
   * The two marking branches of the pre-save hook: replaced by a file of
   * another name, or cleared. Together: the previous row had a file and the
   * incoming field no longer names it.
   */
  function FileToDelete(previous: Option<User>, incoming: ImageFile): (mark: Option<string>)
    ensures mark.Some? <==>
      previous.Some? && HasImage(previous.value.profileImage) && previous.value.profileImage.name != incoming.name
    ensures mark.Some? ==> mark.value == previous.value.profileImage.name && mark.value != ""
  {
    if previous.Some? && HasImage(previous.value.profileImage) && HasImage(incoming)
       && previous.value.profileImage.name != incoming.name then
      Some(previous.value.profileImage.name)
    else if previous.Some? && HasImage(previous.value.profileImage) && !HasImage(incoming) then
      Some(previous.value.profileImage.name)
    else None
  }

  /** The field holds a new upload: what the pre-save hook means to test before normalising. */
  predicate IsNewUpload(image: ImageFile) {
    HasImage(image) && image.newUpload.Some?
  }

  /** The outcome of `hasattr(instance.profile_image, "file")`, evaluated only for a non-empty field. */
  datatype FileProbe = NotEvaluated | HasFile | ProbeRaises

  /**
   * The test as written: Django's FieldFile answers `file` for an already
   * stored file too, by opening it, and raises when it is missing.
   */
  function ProbeFileAsWritten(image: ImageFile, files: set<string>): (probe: FileProbe)
    ensures probe == HasFile <==> IsNewUpload(image) || (HasImage(image) && image.name in files)
    ensures probe == ProbeRaises <==> HasImage(image) && image.newUpload.None? && image.name !in files
  {
    if !HasImage(image) then NotEvaluated
    else if image.newUpload.Some? then HasFile
    else if image.name in files then HasFile
    else ProbeRaises
  }

  /**
   * As written, saving a user whose avatar is untouched re-normalises the
   * stored file; storage writes the result under a name it does not hold yet,
   * so the untouched file is marked and deleted after commit.
   */
  lemma StoredAvatarReprocessedAsWritten(previous: User, files: set<string>, rewritten: string)
    requires HasImage(previous.profileImage) && previous.profileImage.newUpload.None?
    requires previous.profileImage.name in files && rewritten !in files
    ensures !IsNewUpload(previous.profileImage)
    ensures ProbeFileAsWritten(previous.profileImage, files) == HasFile
    ensures FileToDelete(Some(previous), ImageFile(rewritten, None)) == Some(previous.profileImage.name)
  {
  }

  /** `storage.get_available_name`'s renaming: `<root>_<random><ext>`. */
  predicate IsAlternativeName(name: string, desired: string) {
    var (root, ext) := SplitExt(desired);
    Decorates(name, root, ext)
  }

  /** `name` is `root + "_" + <something non-empty> + ext`. */
  predicate Decorates(name: string, root: string, ext: string) {
    && |name| > |root| + 1 + |ext|
    && name[..|root| + 1] == root + "_"
    && name[|name| - |ext|..] == ext
  }

  /** The name storage gives a file it is asked to save as `desired`, given the names it already holds. */
  predicate AvailableNameFor(name: string, desired: string, taken: set<string>) {
    name !in taken && (if desired !in taken then name == desired else IsAlternativeName(name, desired))
  }

  predicate UnderUploadTo(name: string) {
    |name| >= |UploadTo| && name[..|UploadTo|] == UploadTo
  }

  lemma UnderUploadToHasSlash(name: string)
    requires UnderUploadTo(name)
    ensures '/' in name
  {
    assert name[|UploadTo| - 1] == '/';
  }

  /** A name storage picks for an upload path stays under `profiles/`. */
  lemma AvailableNameUnderUploadTo(name: string, filename: string, taken: set<string>)
    requires AvailableNameFor(name, UploadPath(filename), taken)
    ensures UnderUploadTo(name)
  {
    var desired := UploadPath(filename);
    if desired in taken {
      var k := |UploadTo|;
      assert desired[k - 1] == '/';
      var root := SplitExt(desired).0;
      assert |root| >= k;
      assert root[..k] == desired[..k];
      assert name[..k] == (root + "_")[..k];
    }
  }

  /** Every finite set of names leaves longer names free. */
  lemma LongerThanAll(names: set<string>) returns (n: nat)
    ensures forall f :: f in names ==> |f| < n
  {
    if names == {} {
      n := 0;
    } else {
      var x :| x in names;
      var m := LongerThanAll(names - {x});
      n := if m > |x| then m else |x| + 1;
    }
  }

  /** However many names are taken, some alternative name for `desired` is free. */
  lemma AlternativeNameExists(desired: string, taken: set<string>)
    ensures exists name :: name !in taken && IsAlternativeName(name, desired)
  {
    var (root, ext) := SplitExt(desired);
    var name := FreeDecoration(root, ext, taken);
    assert IsAlternativeName(name, desired);
  }

  /** A long enough random part makes the decorated name one nobody holds. */
  lemma FreeDecoration(root: string, ext: string, taken: set<string>) returns (name: string)
    ensures name !in taken && Decorates(name, root, ext)
  {
    var n := LongerThanAll(taken);
    name := root + "_" + seq(n + 1, _ => 'x') + ext;
    assert name[..|root| + 1] == root + "_";
    assert name[|name| - |ext|..] == ext;
  }

  /** The names of the files the rows refer to. */
  ghost function Referenced(table: map<Pk, User>): set<string> {
    set pk | pk in table && HasImage(table[pk].profileImage) :: table[pk].profileImage.name
  }

  /**
   * Rows are committed and keyed by their own pk; every file a row refers to
   * is stored, under `profiles/`.
   */
  ghost predicate ValidState(table: map<Pk, User>, files: set<string>) {
    && (forall pk :: pk in table ==> table[pk].pk == Some(pk) && table[pk].profileImage.newUpload.None?)
    && (forall pk :: pk in table && HasImage(table[pk].profileImage) ==>
          table[pk].profileImage.name in files && UnderUploadTo(table[pk].profileImage.name))
  }

  /** No stored file is shared by two rows. */
  ghost predicate OwnedState(table: map<Pk, User>) {
    forall p, q :: p in table && q in table && p != q && HasImage(table[p].profileImage) ==>
      table[p].profileImage.name != table[q].profileImage.name
  }

  /** The name of the file the row `pk` refers to, or "" when there is none. */
  function FileOf(table: map<Pk, User>, pk: Pk): string {
    if pk in table then table[pk].profileImage.name else ""
  }

  /**
   * Committing `row` over the row with its pk, then deleting that row's
   * previous file when the new row no longer refers to it, keeps every
   * referenced file stored and unshared; and when every delete succeeds it
   * leaves no stored file unreferenced.
   */
  lemma CommitThenDelete(table: map<Pk, User>, files: set<string>, row: User, written: set<string>, after: set<string>, backendOk: bool)
    requires ValidState(table, files) && OwnedState(table)
    requires row.pk.Some? && row.profileImage.newUpload.None?
    requires HasImage(row.profileImage) ==> UnderUploadTo(row.profileImage.name)
    requires HasImage(row.profileImage) ==>
      row.profileImage.name == FileOf(table, row.pk.value) || row.profileImage.name !in files
    requires written == files + (if HasImage(row.profileImage) then {row.profileImage.name} else {})
    requires var previousFile := FileOf(table, row.pk.value);
      after == if previousFile != "" && previousFile != row.profileImage.name && backendOk then written - {previousFile} else written
    ensures ValidState(table[row.pk.value := row], after)
    ensures OwnedState(table[row.pk.value := row])
    ensures files == Referenced(table) && backendOk ==> after == Referenced(table[row.pk.value := row])
    ensures after <= files + {row.profileImage.name}
    ensures !backendOk ==> files <= after
  {
    CommitKeepsValid(table, files, row, written, after);
    CommitKeepsOwned(table, files, row);
    if files == Referenced(table) && backendOk {
      CommitLeavesNoOrphans(table, files, row, written, after);
    }
  }

  /** The committed row's file is stored, and the only file deleted is one no other row names. */
  lemma CommitKeepsValid(table: map<Pk, User>, files: set<string>, row: User, written: set<string>, after: set<string>)
    requires ValidState(table, files) && OwnedState(table)
    requires row.pk.Some? && row.profileImage.newUpload.None?
    requires HasImage(row.profileImage) ==> UnderUploadTo(row.profileImage.name)
    requires written == files + (if HasImage(row.profileImage) then {row.profileImage.name} else {})
    requires var previousFile := FileOf(table, row.pk.value);
      after == written || (previousFile != row.profileImage.name && after == written - {previousFile})
    ensures ValidState(table[row.pk.value := row], after)
  {
    var pk := row.pk.value;
    var t := table[pk := row];
    var previousFile := FileOf(table, pk);
    forall q | q in t && HasImage(t[q].profileImage) && q != pk
      ensures t[q].profileImage.name != previousFile
    {
    }
  }

  /** A row that takes a fresh file or keeps its own shares no file with another row. */
  lemma CommitKeepsOwned(table: map<Pk, User>, files: set<string>, row: User)
    requires ValidState(table, files) && OwnedState(table)
    requires row.pk.Some?
    requires HasImage(row.profileImage) ==>
      row.profileImage.name == FileOf(table, row.pk.value) || row.profileImage.name !in files
    ensures OwnedState(table[row.pk.value := row])
  {
  }

  /** Adding the new file and deleting the superseded one keeps storage equal to the referenced files. */
  lemma CommitLeavesNoOrphans(table: map<Pk, User>, files: set<string>, row: User, written: set<string>, after: set<string>)
    requires ValidState(table, files) && OwnedState(table) && files == Referenced(table)
    requires row.pk.Some?
    requires written == files + (if HasImage(row.profileImage) then {row.profileImage.name} else {})
    requires var previousFile := FileOf(table, row.pk.value);
      after == if previousFile != "" && previousFile != row.profileImage.name then written - {previousFile} else written
    ensures after == Referenced(table[row.pk.value := row])
  {
    var pk := row.pk.value;
    var t := table[pk := row];
    var previousFile := FileOf(table, pk);
    forall f | f in after ensures f in Referenced(t) {
      if f == row.profileImage.name && HasImage(row.profileImage) {
        assert t[pk] == row;
      } else {
        assert f in files && f != previousFile;
        var q :| q in table && HasImage(table[q].profileImage) && table[q].profileImage.name == f;
        assert q != pk && t[q] == table[q];
      }
    }
    forall f | f in Referenced(t) ensures f in after {
      var q :| q in t && HasImage(t[q].profileImage) && t[q].profileImage.name == f;
      if q != pk {
        assert f in Referenced(table);
      }
    }
  }

  class AvatarLifecycle {
    /** The storage medium: names of the stored files. */
    var files: set<string>
    /** The committed `User` rows, by primary key. */
    var table: map<Pk, User>
    /** `instance._old_profile_image_to_delete`: the name of the file to delete once the save commits. */
    var pendingDeletion: Option<string>

    ghost predicate Valid()
      reads this
    {
      ValidState(table, files)
    }

    ghost predicate Owned()
      reads this
    {
      OwnedState(table)
    }

    /** Every stored file is some row's avatar. */
    ghost predicate NoOrphans()
      reads this
    {
      files == Referenced(table)
    }

    constructor ()
      ensures files == {} && table == map[] && pendingDeletion.None?
      ensures Valid() && Owned() && NoOrphans()
    {
      files, table, pendingDeletion := {}, map[], None;
    }

    /** `storage.save(desired, content)`: writes under an available name and returns it. */
    method StoreFile(desired: string) returns (name: string)
      modifies this`files
      ensures AvailableNameFor(name, desired, old(files))
      ensures files == old(files) + {name}
    {
      if desired !in files {
        name := desired;
      } else {
        AlternativeNameExists(desired, files);
        name :| name !in files && IsAlternativeName(name, desired);
      }
      files := files + {name};
    }

    /**
     * `_delete_file_safely`: deletes the named file when the name is
     * non-empty and storage holds it. `backendOk` is whether the storage
     * backend's delete succeeds; a failure is swallowed and leaves the file.
     */
    method DeleteFileSafely(name: string, backendOk: bool)
      modifies this`files
      ensures files == if name != "" && name in old(files) && backendOk then old(files) - {name} else old(files)
    {
      if name != "" && name in files {
        if backendOk {
          files := files - {name};
        }
      }
    }

    /**
     * `user_avatar_pre_save`: normalises a new upload (keeping the upload as
     * it is when normalisation fails), then marks the previous row's file
     * when the incoming field no longer names it. It never deletes.
     */
    method PreSave(instance: User, pillow: Images.Pillow) returns (saved: User)
      modifies this`files, this`pendingDeletion
      ensures old(files) <= files
      ensures saved == instance.(profileImage := saved.profileImage)
      ensures !IsNewUpload(instance.profileImage) ==> saved == instance && files == old(files)
      ensures IsNewUpload(instance.profileImage) ==>
        var n := Images.Normalise(instance.profileImage.newUpload.value, pillow);
        if n.Failure? then saved == instance && files == old(files)
        else
          && saved.profileImage.newUpload.None?
          && AvailableNameFor(saved.profileImage.name, UploadPath(n.value.name), old(files))
          && files == old(files) + {saved.profileImage.name}
      ensures var mark := FileToDelete(PreviousRecord(table, instance.pk), saved.profileImage);
              pendingDeletion == if mark.Some? then mark else old(pendingDeletion)
    {
      var previous := PreviousRecord(table, instance.pk);
      saved := instance;
      if IsNewUpload(instance.profileImage) {
        var processed := Images.ProcessAvatar(instance.profileImage.newUpload.value, pillow);
        if processed.Success? {
          var name := StoreFile(UploadPath(processed.value.name));
          saved := saved.(profileImage := ImageFile(name, None));
        }
      }
      var mark := FileToDelete(previous, saved.profileImage);
      if mark.Some? {
        pendingDeletion := mark;
      }
    }

    /**
     * The ORM write between the hooks: a pending upload is written to storage
     * under `profiles/`, a new row gets the database's next pk, and the row is
     * stored.
     */
    method Commit(instance: User, nextPk: Pk) returns (committed: User)
      requires instance.pk.None? ==> nextPk !in table
      modifies this`files, this`table
      ensures committed.pk == if instance.pk.Some? then instance.pk else Some(nextPk)
      ensures committed == instance.(pk := committed.pk, profileImage := committed.profileImage)
      ensures committed.profileImage.newUpload.None?
      ensures IsNewUpload(instance.profileImage) ==>
        && AvailableNameFor(committed.profileImage.name, UploadPath(instance.profileImage.name), old(files))
        && files == old(files) + {committed.profileImage.name}
      ensures !IsNewUpload(instance.profileImage) ==>
        committed.profileImage.name == instance.profileImage.name && files == old(files)
      ensures table == old(table)[committed.pk.value := committed]
    {
      var image := ImageFile(instance.profileImage.name, None);
      if IsNewUpload(instance.profileImage) {
        var name := StoreFile(UploadPath(instance.profileImage.name));
        image := ImageFile(name, None);
      }
      var pk := if instance.pk.Some? then instance.pk.value else nextPk;
      committed := instance.(pk := Some(pk), profileImage := image);
      table := table[pk := committed];
    }

    /**
     * `user_avatar_post_save`: deletes the marked file, if any, and removes
     * the mark.
     */
    method PostSave(backendOk: bool)
      modifies this`files, this`pendingDeletion
      ensures old(pendingDeletion).Some? && old(pendingDeletion).value != "" ==>
        && pendingDeletion.None?
        && files == if old(pendingDeletion).value in old(files) && backendOk
                    then old(files) - {old(pendingDeletion).value} else old(files)
      ensures !(old(pendingDeletion).Some? && old(pendingDeletion).value != "") ==>
        pendingDeletion == old(pendingDeletion) && files == old(files)
    {
      if pendingDeletion.Some? && pendingDeletion.value != "" {
        DeleteFileSafely(pendingDeletion.value, backendOk);
        pendingDeletion := None;
      }
    }

    /** The ORM delete of a row. */
    method DeleteRow(pk: Pk)
      modifies this`table
      ensures table == old(table) - {pk}
    {
      table := table - {pk};
    }

    /** `user_avatar_post_delete`: deletes the deleted record's file, if it has one. */
    method PostDelete(instance: User, backendOk: bool)
      modifies this`files
      ensures files == if HasImage(instance.profileImage) && instance.profileImage.name in old(files) && backendOk
                       then old(files) - {instance.profileImage.name} else old(files)
    {
      if HasImage(instance.profileImage) {
        DeleteFileSafely(instance.profileImage.name, backendOk);
      }
    }

    /**
     * The incoming field is empty, a new upload named as uploads are (a bare
     * file name, no directory), or the file its own row already has: a
     * record never takes over a file stored for another.
     */
    ghost predicate KeepsOwnership(instance: User)
      reads this
    {
      || !HasImage(instance.profileImage)
      || (IsNewUpload(instance.profileImage) && '/' !in instance.profileImage.name)
      || (&& instance.profileImage.newUpload.None? && instance.pk.Some? && instance.pk.value in table
          && table[instance.pk.value].profileImage.name == instance.profileImage.name)
    }

    /**
     * One `instance.save()`: pre-save, the ORM write, post-save. The files the
     * rows refer to stay stored; an untouched avatar is left alone; the
     * previous file is deleted only after the commit and only when the new
     * row no longer refers to it; no other file is ever deleted.
     */
    method Save(instance: User, pillow: Images.Pillow, nextPk: Pk, backendOk: bool) returns (committed: User)
      requires Valid() && Owned() && pendingDeletion.None?
      requires instance.pk.None? ==> nextPk !in table
      requires KeepsOwnership(instance)
      modifies this
      ensures Valid() && Owned() && pendingDeletion.None?
      ensures committed.pk == if instance.pk.Some? then instance.pk else Some(nextPk)
      ensures committed.pk.Some? && table == old(table)[committed.pk.value := committed]
      ensures committed == instance.(pk := committed.pk, profileImage := committed.profileImage)
      ensures IsNewUpload(instance.profileImage) ==>
        var n := Images.Normalise(instance.profileImage.newUpload.value, pillow);
        AvailableNameFor(committed.profileImage.name,
                         UploadPath(if n.Success? then n.value.name else instance.profileImage.name), old(files))
      ensures !IsNewUpload(instance.profileImage) ==> committed.profileImage.name == instance.profileImage.name
      ensures var previous := PreviousRecord(old(table), instance.pk);
        && (previous.Some? && instance.profileImage == previous.value.profileImage ==> files == old(files))
        && (previous.Some? && HasImage(previous.value.profileImage) && backendOk
            && committed.profileImage.name != previous.value.profileImage.name
            ==> previous.value.profileImage.name !in files)
        && (forall f :: f in old(files) && f !in files ==> previous.Some? && f == previous.value.profileImage.name)
      ensures old(NoOrphans()) && backendOk ==> NoOrphans()
      ensures files <= old(files) + {committed.profileImage.name}
      ensures !backendOk ==> old(files) <= files
    {
      ghost var previous := PreviousRecord(table, instance.pk);
      ghost var table0, files0 := table, files;
      var saved := PreSave(instance, pillow);
      ghost var files1 := files;
      committed := Commit(saved, nextPk);
      ghost var pk := committed.pk.value;
      ghost var name := committed.profileImage.name;
      ghost var previousFile := FileOf(table0, pk);
      assert previous.Some? ==> previous.value == table0[pk];
      if previousFile != "" {
        UnderUploadToHasSlash(previousFile);
      }
      if IsNewUpload(instance.profileImage) {
        if Images.Normalise(instance.profileImage.newUpload.value, pillow).Success? {
          assert name == saved.profileImage.name && name !in files0;
          AvailableNameUnderUploadTo(name, Images.Normalise(instance.profileImage.newUpload.value, pillow).value.name, files0);
        } else {
          assert saved == instance && files1 == files0;
          AvailableNameUnderUploadTo(name, saved.profileImage.name, files0);
        }
      } else {
        assert saved == instance && name == instance.profileImage.name;
      }
      assert pendingDeletion == if previousFile != "" && previousFile != saved.profileImage.name
                                then Some(previousFile) else None;
      ghost var written := files;
      PostSave(backendOk);
      CommitThenDelete(table0, files0, committed, written, files, backendOk);
    }

    /**
     * One `instance.delete()` of a committed row: the ORM delete, then
     * post-delete, which deletes the record's file.
     */
    method Delete(instance: User, backendOk: bool)
      requires Valid() && Owned() && pendingDeletion.None?
      requires instance.pk.Some? && instance.pk.value in table && table[instance.pk.value] == instance
      modifies this`files, this`table
      ensures Valid() && Owned() && pendingDeletion.None?
      ensures table == old(table) - {instance.pk.value}
      ensures files == if HasImage(instance.profileImage) && backendOk
                       then old(files) - {instance.profileImage.name} else old(files)
      ensures old(NoOrphans()) && backendOk ==> NoOrphans()
    {
      DeleteRow(instance.pk.value);
      PostDelete(instance, backendOk);
    }
  }
}
