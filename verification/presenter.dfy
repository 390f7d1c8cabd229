/**
 * What the read accessor of the `attachments` attribute hands out for one
 * slot: the fields the `attachments.file.appends` setting asks for.
 */
module Presenter {
  import opened Wrappers
  import opened Settings

  /**
   * One presented attachment: its public URL, whether the disk holds it
   * (the `exists` key) and its path; None for a field not appended.
   */
  datatype Presented = Presented(url: Option<string>, stored: Option<bool>, path: Option<string>)

  /**
   * The entry the read accessor builds for a slot whose path is `path`,
   * given the URL the disk gives it and whether the disk holds it.
   */
  function PresentEntry(appends: seq<AttachmentsAppend>, url: string, stored: bool, path: string): (r: Presented)
    ensures r.url.Some? <==> Url in appends
    ensures r.stored.Some? <==> Exists in appends
    ensures r.path.Some? <==> Path in appends || (Url !in appends && Exists !in appends)
    ensures r.url.Some? ==> r.url.value == url
    ensures r.stored.Some? ==> r.stored.value == stored
    ensures r.path.Some? ==> r.path.value == path
    ensures r.url.Some? || r.stored.Some? || r.path.Some?
  {
    var withUrl := if Url in appends then Some(url) else None;
    var withStored := if Exists in appends then Some(stored) else None;
    var empty := withUrl.None? && withStored.None?;
    Presented(withUrl, withStored, if Path in appends || empty then Some(path) else None)
  }
}
