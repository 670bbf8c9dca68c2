/**
 * `AttachmentFile` and its subclass `InlineImageFile`: a file name and a
 * data source, plus a content id for an inline image. One datatype with a
 * constructor per class keeps the subclass relation: an inline image may
 * stand wherever an attachment is expected.
 */
module Attachments {
  import opened Wrappers
  import opened JavaStrings
  import opened Mime

  datatype AttachmentFile =
    | AttachmentFile(fileName: string, dataSource: DataSource)
    | InlineImageFile(contentId: Option<string>, fileName: string, dataSource: DataSource)

  /** The values of static type `InlineImageFile`. */
  type InlineImage = f: AttachmentFile | f.InlineImageFile?
    witness InlineImageFile(None, "", DataSource("", Bytes([])))

  /**
   * `toString()`: the file name, followed for an inline image by its
   * content id (the text "null" when there is none).
   */
  function ToString(f: AttachmentFile): (r: string)
    ensures IsPrefix(f.fileName, r)
    ensures f.AttachmentFile? ==> r == f.fileName
    ensures f.InlineImageFile? ==> r[|f.fileName|..] == JavaString(f.contentId)
  {
    match f
    case AttachmentFile(name, _) => name
    case InlineImageFile(cid, name, _) => name + JavaString(cid)
  }
}
