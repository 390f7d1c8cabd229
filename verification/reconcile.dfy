/**
 * What `mergeAttachments` computes, stated on values: the slot map it
 * returns, the old paths it collects for deletion, and what resolving the
 * desired values does to the stored files.
 */
module Reconcile {
  import opened Wrappers
  import opened Text
  import opened Settings
  import opened Paths
  import opened Storage

  /** A value the write accessor receives for one slot. */
  datatype Value =
    | Upload(hashName: string)          // an uploaded file; `hashName` is the leaf name putFile stores it under
    | Arr(fields: map<string, string>)  // an array, such as a pre-signed descriptor {path, name}
    | Str(s: string)                    // a string, such as the slot's current path
    | Null

  /** How `handleAttachment` classifies a value. */
  datatype Kind = UploadedFile | SignedDescriptor | Unrecognised

  function KindOf(v: Value): (k: Kind)
    ensures k == UploadedFile <==> v.Upload?
    ensures k == SignedDescriptor <==> v.Arr? && "path" in v.fields
  {
    match v
    case Upload(_) => UploadedFile
    case Arr(fields) => if "path" in fields then SignedDescriptor else Unrecognised
    case _ => Unrecognised
  }

  /**
   * `isAttachmentOld`: the slot holds a path that the desired value is not
   * strictly equal to; a stored slot is old whenever the value is not a string.
   */
  predicate IsAttachmentOld(cur: map<string, string>, key: string, v: Value)
    ensures IsAttachmentOld(cur, key, v) ==> key in cur
    ensures key in cur && !v.Str? ==> IsAttachmentOld(cur, key, v)
  {
    key in cur && v != Str(cur[key])
  }

  /**
   * `isAttachmentNew`: the slot is empty, or the desired value is not
   * strictly its path; an upload, an array or null is always new.
   */
  predicate IsAttachmentNew(cur: map<string, string>, key: string, v: Value)
    ensures key !in cur ==> IsAttachmentNew(cur, key, v)
    ensures !v.Str? ==> IsAttachmentNew(cur, key, v)
  {
    key !in cur || v != Str(cur[key])
  }

  /** An old slot is always new, and a slot is left alone exactly when it is asked to keep its path. */
  lemma OldIsNew(cur: map<string, string>, key: string, v: Value)
    ensures IsAttachmentOld(cur, key, v) ==> IsAttachmentNew(cur, key, v)
    ensures !IsAttachmentNew(cur, key, v) <==> key in cur && v == Str(cur[key])
    ensures !IsAttachmentOld(cur, key, v) && IsAttachmentNew(cur, key, v) <==> key !in cur
  {
  }

  /** The random draw each slot's generated directory uses. */
  type Draws = string -> Picks

  /** `$attachment['name']`; a missing name reads as null, whose extension is "". */
  function NameOf(fields: map<string, string>): (name: string)
    ensures "name" !in fields ==> Extension(name) == ""
  {
    if "name" in fields then fields["name"] else ""
  }

  /** The path `moveFileAttachment` stores an upload at. */
  function UploadTarget(cfg: Config, hashName: string, pick: Picks): (r: string)
    ensures r == [] || (r[0] != '/' && r[|r| - 1] != '/')
  {
    PutFilePath(AttachmentPath(cfg, pick), hashName)
  }

  /** The path `handleAttachment` returns; None stands for null. */
  function Resolved(cfg: Config, v: Value, pick: Picks): (r: Option<string>)
    ensures r.Some? <==> KindOf(v) != Unrecognised
    ensures v.Upload? ==> r == Some(UploadTarget(cfg, v.hashName, pick))
    ensures KindOf(v) == SignedDescriptor ==>
      r == Some(SignedTarget(cfg, AttachmentPath(cfg, pick), v.fields["path"], NameOf(v.fields)))
    ensures KindOf(v) == SignedDescriptor ==> r.value != ""
  {
    match v
    case Upload(h) => Some(UploadTarget(cfg, h, pick))
    case Arr(fields) =>
      if "path" in fields
      then Some(SignedTarget(cfg, AttachmentPath(cfg, pick), fields["path"], NameOf(fields)))
      else None
    case _ => None
  }

  /**
   * The stored files after `handleAttachment` has put or moved a value's
   * file to `target`: an upload is stored there, a descriptor's file is
   * moved there when it is stored, and nothing else touches the disk.
   */
  function StoreEffect(files: set<string>, v: Value, target: string): (r: set<string>)
    ensures v.Upload? ==> r == files + {target}
    ensures KindOf(v) == SignedDescriptor && v.fields["path"] in files ==> target in r
    ensures KindOf(v) == SignedDescriptor ==> r - {target} <= files && files - r <= {v.fields["path"]}
    ensures KindOf(v) == SignedDescriptor && v.fields["path"] in files && v.fields["path"] != target ==>
      v.fields["path"] !in r
    ensures KindOf(v) == SignedDescriptor && v.fields["path"] !in files ==> r == files
    ensures KindOf(v) == Unrecognised ==> r == files
  {
    match v
    case Upload(_) => files + {target}
    case Arr(fields) => if "path" in fields then Moved(files, fields["path"], target) else files
    case _ => files
  }

  /** The desired attachments as an ordered array of (slot, value) pairs. */
  type Desired = seq<(string, Value)>

  /** An array never holds a key twice. */
  predicate DistinctKeys(d: Desired) {
    forall i, j :: 0 <= i < j < |d| ==> d[i].0 != d[j].0
  }

  /** The desired attachments by slot. */
  function AsMap(d: Desired): (m: map<string, Value>)
    ensures forall k :: k in m <==> exists i :: 0 <= i < |d| && d[i].0 == k
  {
    if d == [] then map[] else AsMap(d[..|d| - 1])[d[|d| - 1].0 := d[|d| - 1].1]
  }

  /** In a distinct-key array, every entry is what the map holds for its key. */
  lemma {:induction false} AsMapAt(d: Desired, i: nat)
    requires DistinctKeys(d) && i < |d|
    ensures d[i].0 in AsMap(d) && AsMap(d)[d[i].0] == d[i].1
  {
    if i < |d| - 1 {
      var p := d[..|d| - 1];
      assert p[i] == d[i];
      assert DistinctKeys(p);
      AsMapAt(p, i);
      assert d[i].0 != d[|d| - 1].0;
    }
  }

  /** A key of a distinct-key array does not occur before its position. */
  lemma KeyNotBefore(d: Desired, i: nat)
    requires DistinctKeys(d) && i < |d|
    ensures d[i].0 !in AsMap(d[..i])
  {
    var p := d[..i];
    forall j | 0 <= j < |p|
      ensures p[j].0 != d[i].0
    {
      assert p[j] == d[j];
    }
  }

  /**
   * What `handleAttachment` returns for a slot and its value, with null
   * written as "" (the falsy test at line 129 treats both alike).
   */
  type Resolver = (string, Value) -> string

  /** The resolver of the trait: the path a put or move yields, "" for null. */
  function TraitResolver(cfg: Config, draws: Draws): (resolve: Resolver)
    ensures forall key, v :: KindOf(v) == Unrecognised ==> resolve(key, v) == ""
    ensures forall key, v :: KindOf(v) == SignedDescriptor ==> resolve(key, v) != ""
  {
    var resolve: Resolver := (key: string, v: Value) => Resolved(cfg, v, draws(key)).GetOr("");
    assert forall key, v :: resolve(key, v) == Resolved(cfg, v, draws(key)).GetOr("");
    resolve
  }

  /** The value slot `key` holds after lines 125-127 of the loop. */
  function SlotValue(cur: map<string, string>, key: string, v: Value, resolve: Resolver): (r: string)
    ensures key in cur && v == Str(cur[key]) ==> r == cur[key]
    ensures key !in cur || v != Str(cur[key]) ==> r == resolve(key, v)
  {
    if IsAttachmentNew(cur, key, v) then resolve(key, v) else cur[key]
  }

  /**
   * The slot map `mergeAttachments` returns for the stored map `cur` and the
   * desired values `want`: slots it is not asked about keep their path,
   * slots asked to keep their path keep it, every other asked slot holds
   * what its value resolves to, and no asked slot is left empty.
   */
  function Merged(cur: map<string, string>, want: map<string, Value>, resolve: Resolver): (r: map<string, string>)
    ensures forall k :: k in r ==> k in cur || k in want
    ensures forall k :: k in cur && k !in want ==> k in r && r[k] == cur[k]
    ensures forall k :: k in want && k in cur && want[k] == Str(cur[k]) ==>
      (k in r <==> cur[k] != "") && (k in r ==> r[k] == cur[k])
    ensures forall k :: k in want && IsAttachmentNew(cur, k, want[k]) ==>
      (k in r <==> resolve(k, want[k]) != "") && (k in r ==> r[k] == resolve(k, want[k]))
    ensures forall k :: k in r && k in want ==> r[k] != ""
  {
    map k | k in cur.Keys + want.Keys && (k in want ==> SlotValue(cur, k, want[k], resolve) != "") ::
      if k in want then SlotValue(cur, k, want[k], resolve) else cur[k]
  }

  /**
   * The map `$oldAttchments` that `mergeAttachments` collects: the current
   * path of every slot it is asked about whose desired value is not strictly
   * that path.
   */
  function ReplacedMap(cur: map<string, string>, want: map<string, Value>): (r: map<string, string>)
    ensures forall k :: k in r <==> k in cur && k in want && want[k] != Str(cur[k])
    ensures forall k :: k in r ==> r[k] == cur[k]
  {
    map k | k in cur && k in want && IsAttachmentOld(cur, k, want[k]) :: cur[k]
  }

  /** The stored files after the loop has resolved the desired values in order, before old paths are deleted. */
  function Staged(files: set<string>, cur: map<string, string>, d: Desired, resolve: Resolver): (r: set<string>)
    ensures forall p :: p in files && p !in r ==>
      exists i :: 0 <= i < |d| && KindOf(d[i].1) == SignedDescriptor && d[i].1.fields["path"] == p
    decreases |d|
  {
    if d == [] then files
    else
      var before := Staged(files, cur, d[..|d| - 1], resolve);
      var key, v := d[|d| - 1].0, d[|d| - 1].1;
      if IsAttachmentNew(cur, key, v) then StoreEffect(before, v, resolve(key, v)) else before
  }

  /** An upload, or a descriptor whose file is stored when its turn comes. */
  predicate Stores(files: set<string>, cur: map<string, string>, d: Desired, resolve: Resolver, i: nat)
    requires i < |d|
  {
    d[i].1.Upload? || (KindOf(d[i].1) == SignedDescriptor && d[i].1.fields["path"] in Staged(files, cur, d[..i], resolve))
  }

  /**
   * The file the loop stores for entry `i` stays stored through the later
   * rounds, unless a later descriptor moves away a file at that very path.
   */
  lemma {:induction false} StagedKeepsTarget(files: set<string>, cur: map<string, string>, d: Desired, resolve: Resolver,
                                             i: nat, n: nat)
    requires i < n <= |d| && Stores(files, cur, d, resolve, i)
    requires forall j :: i < j < n && KindOf(d[j].1) == SignedDescriptor ==>
      d[j].1.fields["path"] != resolve(d[i].0, d[i].1)
    ensures resolve(d[i].0, d[i].1) in Staged(files, cur, d[..n], resolve)
  {
    var p := d[..n];
    assert p[..n - 1] == d[..n - 1] && p[n - 1] == d[n - 1];
    if n - 1 > i {
      StagedKeepsTarget(files, cur, d, resolve, i, n - 1);
    }
  }

  /**
   * The file of an upload, or of a stored descriptor, is on the disk after
   * `mergeAttachments` and its slot holds its path, unless a later descriptor
   * moves it away or it is the old path of a replaced slot (old paths are
   * deleted after every new file is stored).
   */
  lemma MergedTargetStored(files: set<string>, cur: map<string, string>, d: Desired, resolve: Resolver, i: nat)
    requires DistinctKeys(d) && i < |d| && Stores(files, cur, d, resolve, i)
    requires forall j :: i < j < |d| && KindOf(d[j].1) == SignedDescriptor ==>
      d[j].1.fields["path"] != resolve(d[i].0, d[i].1)
    requires resolve(d[i].0, d[i].1) !in ReplacedMap(cur, AsMap(d)).Values
    ensures resolve(d[i].0, d[i].1) in Staged(files, cur, d, resolve) - ReplacedMap(cur, AsMap(d)).Values
    ensures resolve(d[i].0, d[i].1) != "" ==>
      d[i].0 in Merged(cur, AsMap(d), resolve) && Merged(cur, AsMap(d), resolve)[d[i].0] == resolve(d[i].0, d[i].1)
  {
    StagedKeepsTarget(files, cur, d, resolve, i, |d|);
    assert d[..|d|] == d;
    AsMapAt(d, i);
  }

  /** One more slot handled by the loop: the merged map changes at that slot only. */
  lemma MergedStep(cur: map<string, string>, want: map<string, Value>, key: string, v: Value, resolve: Resolver)
    requires key !in want
    ensures var before, value := Merged(cur, want, resolve), SlotValue(cur, key, v, resolve);
      Merged(cur, want[key := v], resolve) == if value == "" then before - {key} else before[key := value]
  {
    var before, value := Merged(cur, want, resolve), SlotValue(cur, key, v, resolve);
    var want' := want[key := v];
    var after := Merged(cur, want', resolve);
    var expected := if value == "" then before - {key} else before[key := value];
    forall k
      ensures (k in after <==> k in expected) && (k in after ==> after[k] == expected[k])
    {
      if k != key {
        assert k in want' <==> k in want;
        if k in want {
          assert want'[k] == want[k];
        }
      } else {
        assert want'[k] == v;
      }
    }
    assert after == expected;
  }

  /** One more slot handled by the loop: its path joins the old ones when it is old. */
  lemma ReplacedStep(cur: map<string, string>, want: map<string, Value>, key: string, v: Value)
    requires key !in want
    ensures ReplacedMap(cur, want[key := v])
         == if IsAttachmentOld(cur, key, v) then ReplacedMap(cur, want)[key := cur[key]] else ReplacedMap(cur, want)
  {
  }

  /** Values that are neither uploads nor descriptors leave the stored files alone. */
  lemma {:induction false} StagedInert(files: set<string>, cur: map<string, string>, d: Desired, resolve: Resolver)
    requires forall i :: 0 <= i < |d| ==> KindOf(d[i].1) == Unrecognised
    ensures Staged(files, cur, d, resolve) == files
  {
    if d != [] {
      StagedInert(files, cur, d[..|d| - 1], resolve);
    }
  }

  /**
   * What a slot asked to change holds after `mergeAttachments`: a pre-signed
   * descriptor's destination, the path an upload is stored at (which ends
   * with the upload's hash name), and nothing for any other value.
   */
  lemma TraitMergedSlot(cfg: Config, draws: Draws, cur: map<string, string>, want: map<string, Value>, k: string)
    requires k in want && IsAttachmentNew(cur, k, want[k])
    requires want[k].Upload? ==> want[k].hashName != [] && '/' !in want[k].hashName
    ensures var r, v := Merged(cur, want, TraitResolver(cfg, draws)), want[k];
      && (KindOf(v) == Unrecognised ==> k !in r)
      && (KindOf(v) == SignedDescriptor ==>
            k in r && r[k] == SignedTarget(cfg, AttachmentPath(cfg, draws(k)), v.fields["path"], NameOf(v.fields)))
      && (v.Upload? ==>
            && k in r && r[k] == UploadTarget(cfg, v.hashName, draws(k))
            && |v.hashName| <= |r[k]| && r[k][|r[k]| - |v.hashName|..] == v.hashName)
  {
    var v, resolve := want[k], TraitResolver(cfg, draws);
    var r := Merged(cur, want, resolve);
    assert resolve(k, v) == Resolved(cfg, v, draws(k)).GetOr("");
    if v.Upload? {
      PutFilePathEndsWithName(AttachmentPath(cfg, draws(k)), v.hashName);
    }
  }

  /** No slot of the map holds an empty path. */
  predicate NoEmptyPaths(m: map<string, string>) {
    forall k :: k in m ==> m[k] != ""
  }

  /** No two slots of the map hold the same path. */
  predicate DistinctPaths(m: map<string, string>) {
    forall k, k' :: k in m && k' in m && k != k' ==> m[k] != m[k']
  }

  /** Merging keeps a map free of empty paths. */
  lemma MergedNoEmptyPaths(cur: map<string, string>, want: map<string, Value>, resolve: Resolver)
    requires NoEmptyPaths(cur)
    ensures NoEmptyPaths(Merged(cur, want, resolve))
  {
  }

  /** A non-empty slot that is not asked about, or is asked to keep its path, keeps it. */
  lemma KeptSlotKeepsPath(cur: map<string, string>, want: map<string, Value>, resolve: Resolver, key: string)
    requires key in cur && cur[key] != ""
    requires key !in want || want[key] == Str(cur[key])
    ensures key in Merged(cur, want, resolve) && Merged(cur, want, resolve)[key] == cur[key]
  {
  }

  /**
   * A slot that is not asked about, or is asked to keep its path, keeps it
   * and, when no other slot shares that path, its file is not among those deleted.
   */
  lemma KeptSlotSurvives(cur: map<string, string>, want: map<string, Value>, resolve: Resolver, key: string)
    requires key in cur && cur[key] != ""
    requires key !in want || want[key] == Str(cur[key])
    requires DistinctPaths(cur)
    ensures key in Merged(cur, want, resolve) && Merged(cur, want, resolve)[key] == cur[key]
    ensures cur[key] !in ReplacedMap(cur, want).Values
  {
    KeptSlotKeepsPath(cur, want, resolve, key);
    var replaced := ReplacedMap(cur, want);
    forall k | k in replaced
      ensures replaced[k] != cur[key]
    {
      assert k != key;
    }
  }

  /**
   * A slot whose desired value is not strictly its current path loses that
   * path: whatever the loop stored, the deletions after it remove the path.
   */
  lemma OldPathDeleted(cur: map<string, string>, want: map<string, Value>, staged: set<string>, k: string)
    requires k in cur && k in want && want[k] != Str(cur[k])
    ensures cur[k] in ReplacedMap(cur, want).Values
    ensures cur[k] !in staged - ReplacedMap(cur, want).Values
  {
    assert k in ReplacedMap(cur, want);
  }

  /** The desired values `deleteAttachment(keys)` passes on: the stored paths, with the named slots nulled. */
  function NulledOut(cur: map<string, string>, keys: seq<string>): (want: map<string, Value>)
    ensures want.Keys == cur.Keys + (set n | n in keys)
  {
    map k | k in cur.Keys + (set n | n in keys) :: if k in keys then Null else Str(cur[k])
  }

  /**
   * Nulling named slots and merging leaves exactly the other non-empty
   * slots, with their paths; naming a slot that holds nothing changes nothing.
   */
  lemma NulledOutMerge(cfg: Config, cur: map<string, string>, keys: seq<string>, draws: Draws)
    ensures Merged(cur, NulledOut(cur, keys), TraitResolver(cfg, draws))
         == map k | k in cur && k !in keys && cur[k] != "" :: cur[k]
  {
    var want := NulledOut(cur, keys);
    var resolve := TraitResolver(cfg, draws);
    var merged := Merged(cur, want, resolve);
    var kept := map k | k in cur && k !in keys && cur[k] != "" :: cur[k];
    forall k | k in want
      ensures (k in merged <==> k in kept) && (k in merged ==> merged[k] == kept[k])
    {
      if k in keys {
        assert want[k] == Null;
        assert resolve(k, Null) == "";
      } else {
        assert want[k] == Str(cur[k]);
      }
    }
    assert merged == kept;
  }

  /** Nulling named slots collects exactly the paths the named slots hold for deletion. */
  lemma NulledOutReplaced(cur: map<string, string>, keys: seq<string>)
    ensures ReplacedMap(cur, NulledOut(cur, keys)) == map k | k in cur && k in keys :: cur[k]
    ensures ReplacedMap(cur, NulledOut(cur, keys)).Values == set k | k in cur && k in keys :: cur[k]
  {
    var want := NulledOut(cur, keys);
    forall k | k in cur
      ensures want[k] == if k in keys then Null else Str(cur[k])
    {
    }
    var named := ReplacedMap(cur, want);
    forall p | p in named.Values
      ensures exists k :: k in cur && k in keys && cur[k] == p
    {
      var k :| k in named && named[k] == p;
    }
    forall k | k in cur && k in keys
      ensures cur[k] in named.Values
    {
      assert k in named;
    }
  }

  /**
   * What the write accessor does with the nulled-out array, whatever order
   * its entries come in: it is empty exactly when there was nothing to
   * delete and nothing stored; otherwise the other non-empty slots remain
   * and only the named slots' files are deleted.
   */
  lemma NulledOutcome(cfg: Config, files: set<string>, cur: map<string, string>, keys: seq<string>, d: Desired, draws: Draws)
    requires DistinctKeys(d) && AsMap(d) == NulledOut(cur, keys)
    ensures d == [] <==> keys == [] && cur == map[]
    ensures Merged(cur, AsMap(d), TraitResolver(cfg, draws))
         == map k | k in cur && k !in keys && cur[k] != "" :: cur[k]
    ensures Staged(files, cur, d, TraitResolver(cfg, draws)) - ReplacedMap(cur, AsMap(d)).Values
         == files - set k | k in cur && k in keys :: cur[k]
  {
    var want := NulledOut(cur, keys);
    if d == [] {
      assert want == map[];
      var first := if keys == [] then "" else keys[0];
      assert keys == [] || first in want;
    } else {
      assert d[0].0 in AsMap(d);
    }
    NulledOutMerge(cfg, cur, keys, draws);
    NulledOutReplaced(cur, keys);
    forall i | 0 <= i < |d|
      ensures KindOf(d[i].1) == Unrecognised
    {
      AsMapAt(d, i);
    }
    StagedInert(files, cur, d, TraitResolver(cfg, draws));
  }
}
