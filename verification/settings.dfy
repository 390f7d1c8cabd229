/**
 * The package configuration the trait reads, taken as one immutable value,
 * and the fields a presented attachment may carry.
 */
module Settings {

  /** The fields the read accessor may append to each attachment. */
  datatype AttachmentsAppend = Path | Url | Exists

  /**
   * `attachments.file.base_folder`, `attachments.path_obfuscation.enabled`
   * and `.levels`, `attachments.signed_storage.temp_folder` and
   * `attachments.file.appends`.
   */
  datatype Config = Config(
    baseFolder: string,
    obfuscation: bool,
    levels: nat,
    tempFolder: string,
    appends: seq<AttachmentsAppend>
  )

  /** The values the package ships with. */
  const Default := Config("", true, 3, "tmp", [Path, Url, Exists])
}
