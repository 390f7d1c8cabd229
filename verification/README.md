# laravel-attachments: a verified model of the `HasAttachments` trait

laravel-attachments lets an Eloquent model keep its file attachments in one
JSON column, `attachments`. The column maps slot names such as `avatar` or
`cv` to paths on a storage disk. The `HasAttachments` trait manages that map.

- The write accessor stores new files. A value can be an uploaded file, or a
  pre-signed descriptor `{path, name}` for a file already uploaded to a
  temporary folder.
- It deletes the files that were replaced.
- It drops slots that end up empty.
- The read accessor presents every slot with the fields the configuration
  asks for.
- Deleting slots, clearing the column and deleting the record clean up the
  stored files.
- `PreSignedAttachmentRule` validates a descriptor before it reaches the
  trait.

This project models that core in Dafny and proves what it promises.

- `text.dfy` (`Text`): the PHP string functions the trait uses.
  - `trim($s, '/')`.
  - `str_replace` with one search string.
  - The extension part of `pathinfo`.
- `settings.dfy` (`Settings`):
  - the package configuration, as one value;
  - the `AttachmentsAppend` enumeration.
- `storage.dfy` (`Storage`): the disk, as a `Store` class over the set of stored paths.
  - Methods: `Delete`, `Move` and `PutFile`.
  - Predicate: `Has`.
- `paths.dfy` (`Paths`):
  - `generateAttachmentPath`, as a loop proved against a specification function;
  - the destination of a pre-signed upload;
  - the lemmas on the shape of both.
- `reconcile.dfy` (`Reconcile`): what `mergeAttachments` computes, stated on values.
  - The slot map it returns.
  - The paths it collects for deletion.
  - The stored files after the loop.
  - The lemmas relating these.
- `presenter.dfy` (`Presenter`): one entry of the read accessor.
- `has_attachments.dfy` (`HasAttachments`): the record as a class.
  - Its `column` field is the stored map; None is SQL null.
  - Its methods are the trait's operations. The write path (`HandleAttachment`, `MergeAttachments`, `SetAttachments`, `DeleteAttachment`) is proved against the functions of `Reconcile`; `Get` is proved against `Presenter.PresentEntry`; `RemoveAttachments`, `Deleted` and the other methods state the new disk directly.
- `rules.dfy` (`Rules`): the validation rule, and its link to what the trait does with a descriptor that passes.

Some behaviour one might expect of such a package is absent from the code, and the model has it absent too.

- **Replaced files.** Old files are deleted after all new files are stored. They are not deleted before.
- **Paths.** There is no per-attachment wrapper folder, and a generated path is never re-drawn on a collision.
- **Directories.** Nothing ever deletes a directory.
- **Empty merge result.** A non-empty desired array can merge to no slots. The column then holds an empty map (`json_encode([])` is `"[]"`); it is not set to null.

## Model

| member | source | states |
|---|---|---|
| Text.TrimLeft | src/Traits/HasAttachments.php:200 | the left-trimmed string does not start with '/' |
| Text.TrimRight | src/Traits/HasAttachments.php:200 | the right-trimmed string does not end with '/' |
| Text.Trim | src/Traits/HasAttachments.php:194 | a trimmed string neither starts nor ends with '/'; a string that neither starts nor ends with '/' is unchanged |
| Text.TrimOneTrailing | src/Traits/HasAttachments.php:196-200 | trimming `x/` gives back `x` when `x` is non-empty and has no '/' at either end |
| Text.TrimLeftSuffix | src/Traits/HasAttachments.php:200 | left trimming keeps a suffix of the string |
| Text.TrimRightPrefix | src/Traits/HasAttachments.php:200 | right trimming keeps a prefix of the string |
| Text.TrimLeftDropsSeparators | src/Traits/HasAttachments.php:200 | every character left trimming drops is '/' |
| Text.TrimRightDropsSeparators | src/Traits/HasAttachments.php:200 | every character right trimming drops is '/' |
| Text.Replace | src/Traits/HasAttachments.php:164 | an empty search string, or a replacement equal to the search string, leaves the subject unchanged, as does a subject shorter than the search string |
| Text.ReplaceUntouched | src/Traits/HasAttachments.php:164 | a string without '/' holds no occurrence of a search string ending in '/', so `str_replace` leaves it unchanged |
| Text.ReplaceLeading | src/Traits/HasAttachments.php:164 | an occurrence at the start is replaced and the scan goes on after it |
| Text.AfterLast | src/Traits/HasAttachments.php:165 | the part after the last `c` contains no `c` |
| Text.AfterLastSuffix | src/Traits/HasAttachments.php:165 | the part after the last `c` is a suffix, preceded by `c` when shorter than the string |
| Text.AfterLastAppend | src/Traits/HasAttachments.php:165 | appending text free of `c` extends the part after the last `c` by that text |
| Text.Extension | src/Traits/HasAttachments.php:165 | the extension is taken from the base name (trailing '/' dropped, then what follows the last '/'), so it contains neither '.' nor '/' |
| Text.ExtensionIgnoresTrailingSeparators | src/Traits/HasAttachments.php:165 | a trailing '/' does not change the extension: `report.pdf/` has extension `pdf` |
| Text.ExtensionOf | src/Traits/HasAttachments.php:165 | the extension of `stem.ext` is `ext` for any stem |
| Storage.PutFilePath | src/Traits/HasAttachments.php:154 | the path `putFile` stores a file at neither starts nor ends with '/' |
| Storage.PutFilePathEndsWithName | src/Traits/HasAttachments.php:154 | the path `putFile` stores a file at ends with the file's leaf name |
| Storage.Moved | src/Traits/HasAttachments.php:168 | a move stores the destination and drops the source when the source is stored; otherwise it changes nothing; no other path is affected |
| Storage.Store.Has | src/Rules/PreSignedAttachmentRule.php:24 | `has` holds exactly for the stored paths; it reads the disk and changes nothing |
| Storage.Store.Delete | src/Traits/HasAttachments.php:178 | the path is no longer stored; nothing else changes |
| Storage.Store.Move | src/Traits/HasAttachments.php:168 | reports whether the source was stored; the stored set becomes `Moved` of the old one |
| Storage.Store.PutFile | src/Traits/HasAttachments.php:154 | the file is stored at `trim(dir/name)`, which is returned |
| Paths.Dirs | src/Traits/HasAttachments.php:189-191 | `n` rounds of the loop append 2n characters: the i-th pick at position 2i, each followed by '/' |
| Paths.AttachmentPath | src/Traits/HasAttachments.php:182-201 | the generated directory never starts or ends with '/', and is empty with obfuscation off and no base folder |
| Paths.GeneratePath | src/Traits/HasAttachments.php:182-201 | the loop builds `levels` picked characters each followed by '/'; the result is the trimmed join with the trimmed base folder, as `AttachmentPath` specifies |
| Paths.Segments | src/Traits/HasAttachments.php:189-191 | `n` segments joined by '/' have length 2n-1, with the i-th pick at position 2i and '/' between |
| Paths.DirsAreSegments | src/Traits/HasAttachments.php:189-191 | what the loop appends is the joined segments plus one trailing '/' |
| Paths.SegmentsEnds | src/Traits/HasAttachments.php:186-191 | with hex-digit picks, the joined segments neither start nor end with '/' |
| Paths.TrimJoined | src/Traits/HasAttachments.php:194-200 | trimming `folder/dirs` joins the folder and the segments, leaving out whichever is empty |
| Paths.AttachmentPathLayout | src/Traits/HasAttachments.php:182-201 | the generated directory is the trimmed base folder joined with `levels` segments, or with none when obfuscation is off |
| Paths.AttachmentPathShape | src/Traits/HasAttachments.php:182-201 | the generated directory never starts or ends with '/'; with obfuscation on and no base folder it is exactly `levels` hex-digit segments joined by '/'; a non-empty trimmed base folder is its prefix; with both off it is empty |
| Paths.DefaultPathShape | config/attachments.php:8-18 | with the shipped settings (no base folder, obfuscation on, three levels) a generated directory is three hex digits separated by '/' |
| Paths.JoinedShape | src/Traits/HasAttachments.php:194-200 | the joined folder and segments alternate hex digits and '/' when there is no folder, and start with a non-empty folder |
| Paths.SignedTarget | src/Traits/HasAttachments.php:163-166 | the destination ends with '.' followed by the extension of the name (its last characters are exactly that extension); when the temporary folder and the destination coincide, it is the temporary path with that suffix |
| Paths.SignedTargetOfTempPath | src/Traits/HasAttachments.php:157-166 | a temporary path `<temp folder>/<id>` goes to `<destination>/<id>.<extension of name>` |
| Paths.SignedTargetLeavesTemp | src/Traits/HasAttachments.php:163-168 | the destination of such a temporary path is never the temporary path itself |
| Paths.RenamedLeafDiffers | src/Traits/HasAttachments.php:163-166 | appending `.ext` to a leaf gives a path different from the original one |
| Paths.AfterLastDistinct | src/Traits/HasAttachments.php:163-166 | two paths whose last segments differ in length differ |
| Reconcile.KindOf | src/Traits/HasAttachments.php:139-150 | a value is an upload exactly when it is an uploaded file, and a descriptor exactly when it is an array with a `path` key |
| Reconcile.IsAttachmentOld | src/Traits/HasAttachments.php:213-216 | only a stored slot can be old, and a stored slot is old whenever the desired value is not a string |
| Reconcile.IsAttachmentNew | src/Traits/HasAttachments.php:218-221 | an absent slot is always new, and so is any slot whose desired value is not a string |
| Reconcile.OldIsNew | src/Traits/HasAttachments.php:213-221 | an old slot is always new; a slot is neither exactly when it holds a path strictly equal to the value; new but not old exactly when the slot is absent |
| Reconcile.NameOf | src/Traits/HasAttachments.php:165 | a descriptor without a name yields no extension |
| Reconcile.UploadTarget | src/Traits/HasAttachments.php:152-155 | the path an upload is stored at neither starts nor ends with '/' |
| Reconcile.Resolved | src/Traits/HasAttachments.php:139-171 | a path results exactly for uploads and descriptors: an upload's `putFile` path, or a descriptor's non-empty destination; anything else gives null |
| Reconcile.StoreEffect | src/Traits/HasAttachments.php:139-171 | an upload is stored at its target; a stored descriptor file is moved to its target and is gone from its old path when the two differ; a descriptor whose file is not stored changes nothing; a descriptor changes nothing but that file and its target; any other value leaves the disk alone |
| Reconcile.AsMap | src/Traits/HasAttachments.php:120 | the keys of the desired map are exactly the keys of the array |
| Reconcile.AsMapAt | src/Traits/HasAttachments.php:120 | in an array with distinct keys, each entry is what the desired map holds for its key |
| Reconcile.KeyNotBefore | src/Traits/HasAttachments.php:120-127 | in an array with distinct keys, a key is not among those the loop has already handled |
| Reconcile.TraitResolver | src/Traits/HasAttachments.php:125-127 | what `handleAttachment` writes into a slot: "" for a value that is neither an upload nor a descriptor, never "" for a descriptor |
| Reconcile.SlotValue | src/Traits/HasAttachments.php:125-127 | a slot asked to keep its path keeps it; any other asked slot takes what its value resolves to |
| Reconcile.Merged | src/Traits/HasAttachments.php:114-137 | slots not asked about keep their path; a slot asked to keep its path keeps it (unless it was empty); every other asked slot holds what its value resolves to, and is absent when that is empty; no asked slot holds an empty path |
| Reconcile.ReplacedMap | src/Traits/HasAttachments.php:118-123 | exactly the asked slots whose desired value is not strictly their path, with their current paths |
| Reconcile.Staged | src/Traits/HasAttachments.php:120-131 | while the loop stores files, the only stored path that can disappear is the temporary path of a descriptor in the array |
| Reconcile.StagedKeepsTarget | src/Traits/HasAttachments.php:120-131 | the file the loop stores for an upload, or for a descriptor whose file is stored when its turn comes, stays stored through the later rounds unless a later descriptor moves a file away from that very path |
| Reconcile.MergedTargetStored | src/Traits/HasAttachments.php:114-137 | after `mergeAttachments` such a file is on the disk and its slot holds its path, unless a later descriptor moved it away or it is the old path of a replaced slot, since old paths are deleted after every new file is stored |
| Reconcile.MergedStep | src/Traits/HasAttachments.php:120-131 | one more round of the loop changes the merged map at its own slot only: the slot gets its value, or goes when that is empty |
| Reconcile.ReplacedStep | src/Traits/HasAttachments.php:120-123 | one more round of the loop adds its slot's path to the old paths exactly when the slot is old |
| Reconcile.StagedInert | src/Traits/HasAttachments.php:139-150 | values that are neither uploads nor descriptors leave the stored files alone |
| Reconcile.TraitMergedSlot | src/Traits/HasAttachments.php:125-150 | an asked, changed slot holds the descriptor's destination, or the upload's stored path (ending with its hash name), and is absent for a null, a string or any other value |
| Reconcile.MergedNoEmptyPaths | src/Traits/HasAttachments.php:125-131 | merging keeps a map free of empty paths |
| Reconcile.KeptSlotKeepsPath | src/Traits/HasAttachments.php:120-131 | for any stored map, a non-empty slot not asked about, or asked to keep its path, keeps that path |
| Reconcile.KeptSlotSurvives | src/Traits/HasAttachments.php:120-134 | a slot not asked about, or asked to keep its path, keeps it, and (paths being distinct) its file is not deleted |
| Reconcile.OldPathDeleted | src/Traits/HasAttachments.php:120-134 | the current path of every slot whose value is not strictly that path is deleted after the loop, whatever the loop stored |
| Reconcile.NulledOut | src/Traits/HasAttachments.php:94-104 | the nulled-out array has the current slots and the named keys |
| Reconcile.NulledOutMerge | src/Traits/HasAttachments.php:94-107 | merging the nulled-out array leaves exactly the other non-empty slots with their paths |
| Reconcile.NulledOutReplaced | src/Traits/HasAttachments.php:94-107 | the paths deleted are exactly those of the named slots that exist |
| Reconcile.NulledOutcome | src/Traits/HasAttachments.php:75-107 | the nulled-out array is empty exactly when no key is named and no slot is stored; otherwise the other non-empty slots remain and only the named slots' files are deleted, in any entry order |
| Presenter.PresentEntry | src/Traits/HasAttachments.php:55-71 | `url` exactly when Url is appended; `exists` exactly when Exists is appended; `path` exactly when Path is appended or neither other field is; never empty |
| HasAttachments.Entries | src/Traits/HasAttachments.php:96-106 | the array built from a map has each key once with its value |
| HasAttachments.NullOut | src/Traits/HasAttachments.php:96-104 | the loop writing nulls builds the nulled-out array |
| HasAttachments.Record.CurrentAttachments | src/Traits/HasAttachments.php:203-206 | a null column decodes as no attachments |
| HasAttachments.Record.MoveFileAttachment | src/Traits/HasAttachments.php:152-155 | the upload is stored in a generated directory, and that path is returned |
| HasAttachments.Record.MoveSignedFileAttachment | src/Traits/HasAttachments.php:157-171 | returns the destination under a generated directory; the disk is the old one with the temporary file moved there |
| HasAttachments.Record.HandleAttachment | src/Traits/HasAttachments.php:139-150 | returns `Resolved` and changes the disk as `StoreEffect` says |
| HasAttachments.Record.RemoveAttachments | src/Traits/HasAttachments.php:173-180 | every path the map holds is deleted, and nothing else |
| HasAttachments.Record.MergeSlot | src/Traits/HasAttachments.php:120-132 | one round of the loop: the slot takes its resolved value or is dropped when empty; an old slot's path is collected; a new slot's file is stored |
| HasAttachments.Record.MergeAttachments | src/Traits/HasAttachments.php:114-137 | returns `Merged` of the stored map and the desired array; the disk is every new file stored, in order, then every replaced path deleted |
| HasAttachments.Record.SetAttachments | src/Traits/HasAttachments.php:75-86 | an empty array deletes every stored path and sets the column to null; otherwise the column holds the merged map and the disk is as `MergeAttachments` leaves it |
| HasAttachments.Record.DeleteAttachments | src/Traits/HasAttachments.php:109-112 | the column is null and every stored path is deleted |
| HasAttachments.Record.DeleteAttachment | src/Traits/HasAttachments.php:94-107 | the named slots are gone and their files deleted; every other non-empty slot keeps its path; names of slots that do not exist delete no file and keep every stored slot, and on a null column they leave an empty map; with no names and no slots the column becomes null |
| HasAttachments.Record.Deleted | src/Traits/HasAttachments.php:36-43 | unless soft-deleting (`forceDeleting` set and false), every stored path is deleted; a soft delete deletes nothing |
| HasAttachments.Record.Get | src/Traits/HasAttachments.php:48-74 | exactly the stored slots, each presented as `PresentEntry` with the disk's URL and existence of its path; no slots for a null column |
| Rules.PreSignedAttachmentRule.Validate | src/Rules/PreSignedAttachmentRule.php:19-30 | passes exactly when the value is an array with a `path` the disk holds; fails with the one translation key otherwise, and always for a value that is not a descriptor; reads the disk and never changes it |
| Rules.ValidatedDescriptorIsMoved | src/Rules/PreSignedAttachmentRule.php:21-25 | a value that passes is a descriptor the trait resolves; handling it stores the destination and, for a temporary path `<temp folder>/<id>`, removes the temporary file |

## Left out

- Storage backends are left out: real disks, the S3 adapter and `Storage::disk`.
  - The disk is an abstract set of stored paths.
  - `url` is a parameter of `HasAttachments.Record.Get`.
  - A failing `putFile` and a `move` that throws are not modelled. `move` reports false and does nothing when the source is missing.
- Randomness is left out: `md5(uniqid(mt_rand()))` and `random_int`.
  - Each generated directory takes its picked characters as a parameter.
  - That every pick is a hex digit is a precondition of the shape lemmas.
  - An upload's hash name is part of the `Upload` value.
- JSON text and Eloquent are left out: `json_encode`/`json_decode`, `update`, saving, the original versus dirty attribute, and model events.
  - The column is an optional map that the write accessor assigns.
  - The read accessor and `getCurrentAttachments` read that same value.
  - `updateAttachments` (src/Traits/HasAttachments.php:89-92) is `update` on the column; it is modelled by `HasAttachments.Record.SetAttachments`.
- HasAttachments.Record.SetAttachments treats a null value and an empty array alike, as an empty array. The accessor's `if ($value)` does not distinguish them.
- PHP truthiness of the string `"0"` is not modelled. At lines 129 and 196 it counts as empty; here only "" does, and a null resolution is written as "".
- DIRECTORY_SEPARATOR is taken to be '/'.
- A descriptor without `name` is given the extension "". PHP warns and reads null there.
- Paths.GeneratePath: `levels` is a natural number. A negative configured level count, for which PHP's loop does nothing, is not represented.
- Rules.PreSignedAttachmentRule.constructor takes the disk as a parameter. The fallback to the default disk is not modelled, and neither is the `translate()` call on the failure.
- The signed-URL controller is not modelled. Only the temporary path shape `<temp folder>/<id>` it hands out is used: `Paths.SignedTargetOfTempPath` and `Paths.SignedTargetLeavesTemp` state their results for paths of that shape. The service provider is not modelled either.
- config/attachments.php becomes the constant `Settings.Default`, used by `Paths.DefaultPathShape`. The `signed_storage` settings other than `temp_folder` belong to the controller and are not modelled.
- Entry order: the model's desired array keeps PHP's order, and the stored files depend on it. The result map is a Dafny `map` and does not record the order of its keys.
