/**
 * One row of the `attachment` table and the properties the app derives
 * from it (`AttachmentRecord`).
 */
module Attachments {
  import opened Wrappers
  import opened Strings

  datatype AttachmentRecord = AttachmentRecord(
    rowID: int,
    guid: string,
    filename: Option<string>,
    mimeType: Option<string>,
    uti: Option<string>,
    transferName: Option<string>,
    totalBytes: int,
    transferState: int,
    isOutgoing: bool)
  {
    /** `isVideo`: the MIME type is known and is a video type, so never an image type. */
    function IsVideo(): (b: bool)
      ensures b ==> mimeType.Some? && !HasPrefix(mimeType.value, "image/")
    {
      var video := mimeType.Some? && HasPrefix(mimeType.value, "video/");
      assert video ==> mimeType.value[0] == 'v';
      video
    }

    /** `isImage`: the MIME type is known and is an image type, so never a video type. */
    function IsImage(): (b: bool)
      ensures b ==> mimeType.Some? && !IsVideo()
    {
      var image := mimeType.Some? && HasPrefix(mimeType.value, "image/");
      assert image ==> mimeType.value[0] == 'i';
      image
    }

    /**
     * `resolvedPath`: the stored file name, with a leading `~` expanded.
     * The expansion (`expandingTildeInPath`) is the parameter `expandTilde`.
     */
    function ResolvedPath(expandTilde: string -> string): (r: Option<string>)
      ensures r.None? <==> filename.None?
      ensures filename.Some? && !HasPrefix(filename.value, "~") ==> r == filename
    {
      match filename
      case None => None
      case Some(name) => if HasPrefix(name, "~") then Some(expandTilde(name)) else Some(name)
    }

    /** `isDownloaded`: the transfer finished (state 5) or never had to happen (state 0). */
    function IsDownloaded(): (b: bool)
      ensures b <==> transferState in {0, 5}
    {
      transferState == 5 || transferState == 0
    }
  }
}
