/**
 * A model whose `attachments` column maps slot names to stored paths, and
 * the operations the `HasAttachments` trait gives it: the read and write
 * accessors of the attribute, deleting slots, and cleaning up after the
 * record itself is deleted.
 */
module HasAttachments {
  import opened Wrappers
  import opened Text
  import opened Settings
  import opened Paths
  import opened Storage
  import opened Reconcile
  import opened Presenter

  /**
   * The draws handed to the write accessor when no value can be an upload
   * or a descriptor, so no directory is ever generated.
   */
  const NoDraws: Draws := (key: string) => (i: nat) => '0'

  /**
   * The entries of an array given by its map, in some order: each key once,
   * each with its value.
   */
  method Entries(m: map<string, Value>) returns (d: Desired)
    ensures DistinctKeys(d) && AsMap(d) == m
    ensures forall i :: 0 <= i < |d| ==> d[i].0 in m && d[i].1 == m[d[i].0]
  {
    d := [];
    var rest := m.Keys;
    while rest != {}
      invariant rest <= m.Keys
      invariant DistinctKeys(d)
      invariant forall i :: 0 <= i < |d| ==> d[i].0 in m && d[i].0 !in rest && d[i].1 == m[d[i].0]
      invariant AsMap(d) == map k | k in m && k !in rest :: m[k]
      decreases rest
    {
      var k :| k in rest;
      assert (d + [(k, m[k])])[..|d|] == d;
      d := d + [(k, m[k])];
      rest := rest - {k};
    }
  }

  /**
   * The array `deleteAttachment` hands to `update`: the current slots, with
   * every named slot set to null.
   */
  method NullOut(cur: map<string, string>, keys: seq<string>) returns (want: map<string, Value>)
    ensures want == NulledOut(cur, keys)
  {
    want := map k | k in cur :: Str(cur[k]);
    for i := 0 to |keys|
      invariant want == NulledOut(cur, keys[..i])
    {
      assert keys[..i + 1] == keys[..i] + [keys[i]];
      want := want[keys[i] := Null];
    }
    assert keys[..|keys|] == keys;
  }

  class Record {
    /** The disk the trait stores attachments on. */
    const fs: Store
    const cfg: Config
    /** The stored `attachments` column; None is null. */
    var column: Option<map<string, string>>

    constructor (fs: Store, cfg: Config, column: Option<map<string, string>>)
      ensures this.fs == fs && this.cfg == cfg && this.column == column
    {
      this.fs := fs;
      this.cfg := cfg;
      this.column := column;
    }

    /** `getCurrentAttachments()`: a null column decodes as no attachments. */
    function CurrentAttachments(): (cur: map<string, string>)
      reads this
      ensures column.None? ==> cur == map[]
      ensures column.Some? ==> cur == column.value
    {
      column.GetOr(map[])
    }

    /** `moveFileAttachment($attachment)`: stores the upload under a generated directory. */
    method MoveFileAttachment(hashName: string, pick: Picks) returns (path: string)
      modifies fs
      ensures path == UploadTarget(cfg, hashName, pick)
      ensures fs.files == old(fs.files) + {path}
    {
      var dir := GeneratePath(cfg, pick);
      path := fs.PutFile(dir, hashName);
    }

    /**
     * `moveSignedFileAttachment($attachment)`: moves a pre-signed upload out
     * of the temporary folder into a generated directory.
     */
    method MoveSignedFileAttachment(fields: map<string, string>, pick: Picks) returns (path: string)
      requires "path" in fields
      modifies fs
      ensures path == SignedTarget(cfg, AttachmentPath(cfg, pick), fields["path"], NameOf(fields))
      ensures fs.files == Moved(old(fs.files), fields["path"], path)
    {
      var destination := GeneratePath(cfg, pick);
      path := SignedTarget(cfg, destination, fields["path"], NameOf(fields));
      var moved := fs.Move(fields["path"], path);
    }

    /** `handleAttachment($attachment)`; None stands for null. */
    method HandleAttachment(v: Value, pick: Picks) returns (r: Option<string>)
      modifies fs
      ensures r == Resolved(cfg, v, pick)
      ensures fs.files == StoreEffect(old(fs.files), v, r.GetOr(""))
    {
      match v
      case Upload(h) =>
        var path := MoveFileAttachment(h, pick);
        r := Some(path);
      case Arr(fields) =>
        if "path" in fields {
          var path := MoveSignedFileAttachment(fields, pick);
          r := Some(path);
        } else {
          r := None;
        }
      case _ =>
        r := None;
    }

    /** `removeAttachments($attachments)`: deletes every path the map holds. */
    method RemoveAttachments(paths: map<string, string>)
      modifies fs
      ensures fs.files == old(fs.files) - paths.Values
    {
      var rest := paths.Keys;
      while rest != {}
        invariant rest <= paths.Keys
        invariant fs.files == old(fs.files) - (set k | k in paths && k !in rest :: paths[k])
        decreases rest
      {
        var k :| k in rest;
        fs.Delete(paths[k]);
        rest := rest - {k};
      }
      assert (set k | k in paths && k !in rest :: paths[k]) == paths.Values;
    }

    /**
     * One round of the loop of `mergeAttachments` for slot `key` and its
     * desired value `v`: the slot's old path is collected when it is being
     * replaced, a new value is resolved (storing its file), and a slot left
     * empty is dropped. `current` still agrees with `cur` at `key`.
     */
    method MergeSlot(cur: map<string, string>, current: map<string, string>, replaced: map<string, string>,
                     key: string, v: Value, draws: Draws)
      returns (current': map<string, string>, replaced': map<string, string>)
      requires key in current <==> key in cur
      requires key in cur ==> current[key] == cur[key]
      modifies fs
      ensures var value := SlotValue(cur, key, v, TraitResolver(cfg, draws));
        current' == if value == "" then current - {key} else current[key := value]
      ensures replaced' == if IsAttachmentOld(cur, key, v) then replaced[key := cur[key]] else replaced
      ensures fs.files == if IsAttachmentNew(cur, key, v)
                          then StoreEffect(old(fs.files), v, TraitResolver(cfg, draws)(key, v))
                          else old(fs.files)
    {
      current', replaced' := current, replaced;
      if IsAttachmentOld(current', key, v) {
        replaced' := replaced'[key := current'[key]];
      }
      if IsAttachmentNew(current', key, v) {
        var path := HandleAttachment(v, draws(key));
        current' := current'[key := path.GetOr("")];
      }
      if current'[key] == "" {
        current' := current' - {key};
      }
    }

    /**
     * `mergeAttachments($newAttachments)`: resolves every desired value in
     * order, deletes the paths it replaces and returns the new slot map.
     */
    method MergeAttachments(d: Desired, draws: Draws) returns (current: map<string, string>)
      requires DistinctKeys(d)
      modifies fs
      ensures current == Merged(old(CurrentAttachments()), AsMap(d), TraitResolver(cfg, draws))
      ensures fs.files == Staged(old(fs.files), old(CurrentAttachments()), d, TraitResolver(cfg, draws))
                        - ReplacedMap(old(CurrentAttachments()), AsMap(d)).Values
    {
      var cur := CurrentAttachments();
      ghost var resolve := TraitResolver(cfg, draws);
      current := cur;
      var replaced: map<string, string> := map[];
      for i := 0 to |d|
        invariant current == Merged(cur, AsMap(d[..i]), resolve)
        invariant replaced == ReplacedMap(cur, AsMap(d[..i]))
        invariant fs.files == Staged(old(fs.files), cur, d[..i], resolve)
      {
        var key, v := d[i].0, d[i].1;
        KeyNotBefore(d, i);
        assert d[..i + 1][..i] == d[..i];
        MergedStep(cur, AsMap(d[..i]), key, v, resolve);
        ReplacedStep(cur, AsMap(d[..i]), key, v);
        current, replaced := MergeSlot(cur, current, replaced, key, v, draws);
      }
      assert d[..|d|] == d;
      RemoveAttachments(replaced);
    }

    /**
     * The write accessor of `attachments` (what `updateAttachments` and
     * `update` go through): a non-empty array is merged into the slots, an
     * empty one clears the column and deletes every stored path.
     */
    method SetAttachments(value: Desired, draws: Draws)
      requires DistinctKeys(value)
      modifies this, fs
      ensures var cur := old(CurrentAttachments());
        && (value == [] ==> column == None && fs.files == old(fs.files) - cur.Values)
        && (value != [] ==> column == Some(Merged(cur, AsMap(value), TraitResolver(cfg, draws))))
        && (value != [] ==> fs.files == Staged(old(fs.files), cur, value, TraitResolver(cfg, draws)) - ReplacedMap(cur, AsMap(value)).Values)
    {
      if value != [] {
        var merged := MergeAttachments(value, draws);
        column := Some(merged);
      } else {
        RemoveAttachments(CurrentAttachments());
        column := None;
      }
    }

    /** `deleteAttachments()`: clears every slot and deletes every stored path. */
    method DeleteAttachments()
      modifies this, fs
      ensures column == None
      ensures fs.files == old(fs.files) - old(CurrentAttachments()).Values
    {
      SetAttachments([], NoDraws);
    }

    /**
     * `deleteAttachment($key)` for the slots `keys` (one name is a
     * one-element sequence): the named slots are emptied and their files
     * deleted; every other non-empty slot keeps its path.
     */
    method DeleteAttachment(keys: seq<string>)
      modifies this, fs
      ensures var cur := old(CurrentAttachments());
        && (keys == [] && cur == map[] ==> column == None && fs.files == old(fs.files))
        && (keys != [] || cur != map[] ==>
              column == Some(map k | k in cur && k !in keys && cur[k] != "" :: cur[k]))
        && (keys != [] || cur != map[] ==>
              fs.files == old(fs.files) - (set k | k in cur && k in keys :: cur[k]))
    {
      var cur := CurrentAttachments();
      var want := NullOut(cur, keys);
      var d := Entries(want);
      NulledOutcome(cfg, fs.files, cur, keys, d, NoDraws);
      SetAttachments(d, NoDraws);
    }

    /**
     * The `deleted` model event: unless the record is only being
     * soft-deleted, every stored path of its slots is deleted; None is an
     * unset `forceDeleting`.
     */
    method Deleted(forceDeleting: Option<bool>)
      modifies fs
      ensures forceDeleting.None? || forceDeleting.value ==> fs.files == old(fs.files) - CurrentAttachments().Values
      ensures forceDeleting.Some? && !forceDeleting.value ==> fs.files == old(fs.files)
    {
      if forceDeleting.None? || forceDeleting.value {
        RemoveAttachments(CurrentAttachments());
      }
    }

    /**
     * The read accessor of `attachments`: every slot, presented with the
     * fields `attachments.file.appends` asks for; `url` is the disk's URL
     * for a path.
     */
    method Get(url: string -> string) returns (r: map<string, Presented>)
      ensures r.Keys == CurrentAttachments().Keys
      ensures forall k :: k in r ==>
        var p := CurrentAttachments()[k]; r[k] == PresentEntry(cfg.appends, url(p), p in fs.files, p)
    {
      var attachments := CurrentAttachments();
      r := map[];
      var rest := attachments.Keys;
      while rest != {}
        invariant rest <= attachments.Keys
        invariant r.Keys == attachments.Keys - rest
        invariant forall k :: k in r ==>
          var p := attachments[k]; r[k] == PresentEntry(cfg.appends, url(p), p in fs.files, p)
        decreases rest
      {
        var k :| k in rest;
        var p := attachments[k];
        r := r[k := PresentEntry(cfg.appends, url(p), fs.Has(p), p)];
        rest := rest - {k};
      }
    }
  }
}
