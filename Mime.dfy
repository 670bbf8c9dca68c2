/**
 * The JavaMail objects the core builds and reads, as values: a MIME part
 * (`MimeBodyPart` / `MimeMessage`) or a part whose content is a
 * `MimeMultipart`, and the data source that backs a file part.
 */
module Mime {
  import opened Wrappers
  import opened JavaStrings

  /** Header name to its values, in the order they were added. */
  type Headers = map<string, seq<string>>

  /**
   * What `getContent()` hands back for a part that is not a multipart: a
   * byte stream (JavaMail's answer for `message/partial` and other types it
   * has no handler for) or a possibly-null string.
   */
  datatype Payload = Bytes(bytes: seq<bv8>) | Chars(text: Option<string>)

  /** `javax.activation.DataSource`: a content type and the bytes or text behind it. */
  datatype DataSource = DataSource(contentType: string, payload: Payload)

  /**
   * A MIME part. `Leaf` is a part whose content is not a multipart;
   * `isMimeBodyPart` is false for a leaf that is a message or some other
   * `Part` implementation. `Container` is a part (or message) whose content
   * is a `MimeMultipart` of the given subtype; the boundary is not modelled.
   * `headers` holds the caller-supplied headers; the content type,
   * disposition, file name and content id are fields of their own.
   */
  datatype MimeNode =
    | Leaf(contentType: string, headers: Headers, disposition: Option<string>,
           fileName: Option<string>, contentId: Option<string>,
           isMimeBodyPart: bool, payload: Payload)
    | Container(subtype: string, headers: Headers, children: seq<MimeNode>)

  const ATTACHMENT: string := "attachment"
  const INLINE: string := "inline"

  /** `Part.getContentType()`. */
  function ContentTypeOf(n: MimeNode): string {
    match n
    case Leaf(ct, _, _, _, _, _, _) => ct
    case Container(sub, _, _) => "multipart/" + sub
  }

  /** The `type/subtype` of a content type, without parameters, lower-cased. */
  function BaseType(contentType: string): string {
    LowerAscii(Trim(UpTo(contentType, ';')))
  }

  /** `Part.isMimeType(mimeType)` for a mime type without wildcard or parameters. */
  predicate IsMimeType(contentType: string, mimeType: string) {
    BaseType(contentType) == mimeType
  }

  /** The data source a leaf part is read through. */
  function DataSourceOf(n: MimeNode): (ds: DataSource)
    requires n.Leaf?
    ensures ds.contentType == n.contentType && ds.payload == n.payload
  {
    DataSource(n.contentType, n.payload)
  }

  /**
   * The `MimeUtility` codecs the core calls: `encodeText(text, charset, null)`
   * for file names and `decodeText(text)` for one run of encoded words; and
   * `toString()` of a content object that is a byte stream.
   */
  datatype JavaMail = JavaMail(
    encodeText: (string, string) -> string,
    decodeText: string -> string,
    streamString: seq<bv8> -> string)

  /** No character of `s` is at most U+0020, an upper-case ASCII letter or `;`. */
  predicate PlainToken(s: string) {
    forall i :: 0 <= i < |s| ==> s[i] > ' ' && !('A' <= s[i] <= 'Z') && s[i] != ';'
  }

  /**
   * A content type written as `base; parameters`, with a lower-case base,
   * is of mime type `base` whatever the parameters say.
   */
  lemma {:induction false} BaseTypeWithParameters(base: string, parameters: string)
    requires base != [] && PlainToken(base)
    ensures BaseType(base + ";" + parameters) == base
  {
    UpToStops(base, ';', parameters);
    var t := Trim(base);
    assert t == base;
  }

  /** `UpTo` stops at the first occurrence of the separator. */
  lemma {:induction false} UpToStops(a: string, c: char, b: string)
    requires c !in a
    ensures UpTo(a + [c] + b, c) == a
    decreases |a|
  {
    if a != [] {
      assert (a + [c] + b)[1..] == a[1..] + [c] + b;
      UpToStops(a[1..], c, b);
      assert a == [a[0]] + a[1..];
    }
  }
}
