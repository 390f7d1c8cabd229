/**
 * The validation rule for a pre-signed attachment: the submitted value must
 * be a descriptor whose temporary path the disk already holds.
 */
module Rules {
  import opened Wrappers
  import opened Text
  import opened Settings
  import opened Paths
  import opened Storage
  import opened Reconcile

  /** The translation key the rule fails with. */
  const PreSignedAttachmentMessage := "laravel-attachments::validation.pre_signed_attachment"

  class PreSignedAttachmentRule {
    /** The disk the pre-signed upload went to. */
    const fs: Store

    constructor (fs: Store)
      ensures this.fs == fs
    {
      this.fs := fs;
    }

    /**
     * `validate($attribute, $value, $fail)`: the message handed to `$fail`,
     * or None when the rule passes.
     */
    function Validate(attribute: string, value: Value): (failure: Option<string>)
      reads fs
      ensures failure.None? <==> value.Arr? && "path" in value.fields && value.fields["path"] in fs.files
      ensures failure.Some? ==> failure.value == PreSignedAttachmentMessage
      ensures KindOf(value) != SignedDescriptor ==> failure.Some?
    {
      if value.Arr? && "path" in value.fields && fs.Has(value.fields["path"]) then None
      else Some(PreSignedAttachmentMessage)
    }
  }

  /**
   * A descriptor that passes the rule is a descriptor the write accessor
   * resolves, and handling it moves the file: the destination is stored
   * and, for a temporary path `<temp folder>/<id>`, the temporary file is
   * gone.
   */
  lemma ValidatedDescriptorIsMoved(rule: PreSignedAttachmentRule, attribute: string, fields: map<string, string>,
                                   cfg: Config, pick: Picks, id: string)
    requires rule.Validate(attribute, Arr(fields)).None?
    ensures KindOf(Arr(fields)) == SignedDescriptor
    ensures var target := Resolved(cfg, Arr(fields), pick).value;
      && target != ""
      && target in StoreEffect(rule.fs.files, Arr(fields), target)
      && (fields["path"] == Trim(cfg.tempFolder) + "/" + id && '/' !in id ==>
            fields["path"] !in StoreEffect(rule.fs.files, Arr(fields), target))
  {
    var target := Resolved(cfg, Arr(fields), pick).value;
    if fields["path"] == Trim(cfg.tempFolder) + "/" + id && '/' !in id {
      SignedTargetLeavesTemp(cfg, AttachmentPath(cfg, pick), id, NameOf(fields));
    }
  }
}
