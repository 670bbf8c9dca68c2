/**
 * `MailSender`: a builder of mail fields, and the composition of the
 * message body as a MIME tree from those fields.
 */
module Sender {
  import opened Wrappers
  import opened JavaStrings
  import opened Mime
  import opened Attachments
  import opened Address
  import Properties

  const DEFAULT_CHARSET: string := "ISO-2022-JP"
  const CONTENT_TRANSFER_ENCODING: string := "Content-Transfer-Encoding"
  const DEFAULT_TRANSFER_ENCODING: string := "7bit"

  /** `MimeMultipart()` has subtype `mixed`; the other two are named explicitly. */
  const MIXED: string := "mixed"
  const ALTERNATIVE: string := "alternative"
  const RELATED: string := "related"

  /** The fields of a sender that the message body is built from. */
  datatype Draft = Draft(
    headers: map<string, string>,
    charset: string,
    text: Option<string>,
    html: Option<string>,
    attachments: seq<AttachmentFile>,
    inlineImages: seq<InlineImage>)

  /** The registered headers as part headers, one value each. */
  function PartHeaders(hs: map<string, string>): Headers {
    map k | k in hs :: [hs[k]]
  }

  /**
   * `setHeaderToPart(part)`: every registered header is set on the part,
   * each with its single value replacing any values it had; the part's
   * other headers and the rest of the part are unchanged.
   */
  function SetHeaderToPart(n: MimeNode, hs: map<string, string>): (r: MimeNode)
    ensures r.Leaf? == n.Leaf? && ContentTypeOf(r) == ContentTypeOf(n)
    ensures r.headers.Keys == n.headers.Keys + hs.Keys
    ensures forall k :: k in hs ==> r.headers[k] == [hs[k]]
    ensures forall k :: k in n.headers && k !in hs ==> r.headers[k] == n.headers[k]
    ensures n.Leaf? ==> (r.payload == n.payload && r.disposition == n.disposition &&
      r.fileName == n.fileName && r.contentId == n.contentId && r.isMimeBodyPart == n.isMimeBodyPart)
    ensures n.Container? ==> r.children == n.children
  {
    n.(headers := n.headers + PartHeaders(hs))
  }

  /** What `setText(text, charset)` and `setText(html, charset, "html")` write as content type. */
  function TextContentType(charset: string): string {
    "text/plain; charset=" + charset
  }

  function HtmlContentType(charset: string): string {
    "text/html; charset=" + charset
  }

  lemma TextContentTypeIsPlain(charset: string)
    ensures IsMimeType(TextContentType(charset), "text/plain")
    ensures !IsMimeType(TextContentType(charset), "text/html")
  {
    assert PlainToken("text/plain");
    assert TextContentType(charset) == "text/plain" + ";" + (" charset=" + charset);
    BaseTypeWithParameters("text/plain", " charset=" + charset);
    assert "text/plain"[5] != "text/html"[5];
  }

  lemma HtmlContentTypeIsHtml(charset: string)
    ensures IsMimeType(HtmlContentType(charset), "text/html")
    ensures !IsMimeType(HtmlContentType(charset), "text/plain")
  {
    assert PlainToken("text/html");
    assert HtmlContentType(charset) == "text/html" + ";" + (" charset=" + charset);
    BaseTypeWithParameters("text/html", " charset=" + charset);
  }

  /** `createTextPart()`: a text/plain body part carrying the headers. */
  function CreateTextPart(d: Draft): (n: MimeNode)
    ensures n.Leaf? && n.isMimeBodyPart && n.payload == Chars(d.text)
    ensures IsMimeType(n.contentType, "text/plain") && !IsMimeType(n.contentType, "text/html")
    ensures n.headers == PartHeaders(d.headers)
    ensures n.disposition.None? && n.fileName.None? && n.contentId.None?
  {
    TextContentTypeIsPlain(d.charset);
    SetHeaderToPart(Leaf(TextContentType(d.charset), map[], None, None, None, true, Chars(d.text)), d.headers)
  }

  /** `createHtmlPart()`: a text/html body part carrying the headers. */
  function CreateHtmlPart(d: Draft): (n: MimeNode)
    ensures n.Leaf? && n.isMimeBodyPart && n.payload == Chars(d.html)
    ensures IsMimeType(n.contentType, "text/html") && !IsMimeType(n.contentType, "text/plain")
    ensures n.headers == PartHeaders(d.headers)
    ensures n.disposition.None? && n.fileName.None? && n.contentId.None?
  {
    HtmlContentTypeIsHtml(d.charset);
    SetHeaderToPart(Leaf(HtmlContentType(d.charset), map[], None, None, None, true, Chars(d.html)), d.headers)
  }

  /**
   * `createAttachmentPart(file)`: the encoded file name, the file's data
   * source and disposition `attachment`; no headers.
   */
  function CreateAttachmentPart(f: AttachmentFile, charset: string, env: JavaMail): (n: MimeNode)
    ensures n.Leaf? && n.isMimeBodyPart && DataSourceOf(n) == f.dataSource
    ensures n.fileName == Some(env.encodeText(f.fileName, charset))
    ensures n.disposition == Some(ATTACHMENT) && n.contentId.None? && n.headers == map[]
  {
    Leaf(f.dataSource.contentType, map[], Some(ATTACHMENT), Some(env.encodeText(f.fileName, charset)),
         None, true, f.dataSource.payload)
  }

  /**
   * `createImagePart(file)`: as an attachment part, plus the content id,
   * with disposition `inline`.
   */
  function CreateImagePart(f: InlineImage, charset: string, env: JavaMail): (n: MimeNode)
    ensures n.Leaf? && n.isMimeBodyPart && DataSourceOf(n) == f.dataSource
    ensures n.fileName == Some(env.encodeText(f.fileName, charset))
    ensures n.disposition == Some(INLINE) && n.contentId == f.contentId && n.headers == map[]
  {
    Leaf(f.dataSource.contentType, map[], Some(INLINE), Some(env.encodeText(f.fileName, charset)),
         f.contentId, true, f.dataSource.payload)
  }

  /** One attachment part per file, in list order. */
  function AttachmentParts(files: seq<AttachmentFile>, charset: string, env: JavaMail): (ps: seq<MimeNode>)
    ensures |ps| == |files|
    ensures forall i :: 0 <= i < |ps| ==> ps[i] == CreateAttachmentPart(files[i], charset, env)
    decreases |files|
  {
    if files == [] then [] else [CreateAttachmentPart(files[0], charset, env)] + AttachmentParts(files[1..], charset, env)
  }

  /** One inline part per image, in list order. */
  function ImageParts(files: seq<InlineImage>, charset: string, env: JavaMail): (ps: seq<MimeNode>)
    ensures |ps| == |files|
    ensures forall i :: 0 <= i < |ps| ==> ps[i] == CreateImagePart(files[i], charset, env)
    decreases |files|
  {
    if files == [] then [] else [CreateImagePart(files[0], charset, env)] + ImageParts(files[1..], charset, env)
  }

  /**
   * The alternative multipart of an html mail: the text part, then the
   * html part, or a related part holding the html part and the inline images.
   */
  function AlternativeOf(d: Draft, env: JavaMail): MimeNode {
    if d.inlineImages == [] then
      Container(ALTERNATIVE, map[], [CreateTextPart(d), CreateHtmlPart(d)])
    else
      var related := Container(RELATED, map[], [CreateHtmlPart(d)] + ImageParts(d.inlineImages, d.charset, env));
      Container(ALTERNATIVE, map[], [CreateTextPart(d), related])
  }

  /**
   * `setContent(message)`: the message the fields describe. Without html
   * the message is the text, or a mixed multipart of the text and the
   * attachments; with html it is the alternative multipart, wrapped in a
   * mixed multipart when there are attachments. The message then receives
   * the headers.
   */
  function Compose(d: Draft, env: JavaMail): MimeNode {
    SetHeaderToPart(Body(d, env), d.headers)
  }

  /** The message content before `setHeaderToPart(message)`. */
  function Body(d: Draft, env: JavaMail): MimeNode {
    if IsBlank(d.html) then
      if d.attachments == [] then
        Leaf(TextContentType(d.charset), map[], None, None, None, false, Chars(d.text))
      else
        Container(MIXED, map[], [CreateTextPart(d)] + AttachmentParts(d.attachments, d.charset, env))
    else if d.attachments == [] then
      AlternativeOf(d, env)
    else
      Container(MIXED, map[], [AlternativeOf(d, env)] + AttachmentParts(d.attachments, d.charset, env))
  }

  /** The coarse shape of a MIME tree: what each leaf is and how containers nest. */
  datatype Shape =
    | TextLeaf | HtmlLeaf | AttachmentLeaf | InlineLeaf | OtherLeaf
    | Multi(subtype: string, parts: seq<Shape>)

  /** Classifies leaves by disposition first, then by mime type. */
  function ShapeOf(n: MimeNode): Shape
    decreases n, 1
  {
    match n
    case Leaf(ct, _, disposition, _, _, _, _) =>
      if disposition == Some(ATTACHMENT) then AttachmentLeaf
      else if disposition == Some(INLINE) then InlineLeaf
      else if IsMimeType(ct, "text/html") then HtmlLeaf
      else if IsMimeType(ct, "text/plain") then TextLeaf
      else OtherLeaf
    case Container(sub, _, children) => Multi(sub, Shapes(children))
  }

  /** The shapes of `ns`, in order. */
  function Shapes(ns: seq<MimeNode>): (r: seq<Shape>)
    ensures |r| == |ns|
    decreases ns, 0
  {
    if ns == [] then [] else [ShapeOf(ns[0])] + Shapes(ns[1..])
  }

  /**
   * The four-way decision table of the body, by whether there is html and
   * how many attachments and inline images there are.
   */
  function Table(hasHtml: bool, attachments: nat, inlineImages: nat): Shape {
    var files := seq(attachments, _ => AttachmentLeaf);
    if !hasHtml then
      if attachments == 0 then TextLeaf else Multi(MIXED, [TextLeaf] + files)
    else
      var second :=
        if inlineImages == 0 then HtmlLeaf
        else Multi(RELATED, [HtmlLeaf] + seq(inlineImages, _ => InlineLeaf));
      var alternative := Multi(ALTERNATIVE, [TextLeaf, second]);
      if attachments == 0 then alternative else Multi(MIXED, [alternative] + files)
  }

  /** Every attachment part is an attachment leaf. */
  lemma {:induction false} AttachmentPartsShape(files: seq<AttachmentFile>, charset: string, env: JavaMail)
    ensures Shapes(AttachmentParts(files, charset, env)) == seq(|files|, _ => AttachmentLeaf)
    decreases |files|
  {
    if files != [] {
      var ps := AttachmentParts(files, charset, env);
      AttachmentPartsShape(files[1..], charset, env);
      assert ps[1..] == AttachmentParts(files[1..], charset, env);
      assert seq(|files|, _ => AttachmentLeaf) == [AttachmentLeaf] + seq(|files| - 1, _ => AttachmentLeaf);
    }
  }

  /** Every image part is an inline leaf. */
  lemma {:induction false} ImagePartsShape(files: seq<InlineImage>, charset: string, env: JavaMail)
    ensures Shapes(ImageParts(files, charset, env)) == seq(|files|, _ => InlineLeaf)
    decreases |files|
  {
    if files != [] {
      var ps := ImageParts(files, charset, env);
      ImagePartsShape(files[1..], charset, env);
      assert ps[1..] == ImageParts(files[1..], charset, env);
      assert seq(|files|, _ => InlineLeaf) == [InlineLeaf] + seq(|files| - 1, _ => InlineLeaf);
    }
  }

  /** The shape of a container whose children are `first` followed by `rest`. */
  lemma ShapeOfCons(sub: string, hs: Headers, first: MimeNode, rest: seq<MimeNode>)
    ensures ShapeOf(Container(sub, hs, [first] + rest)) == Multi(sub, [ShapeOf(first)] + Shapes(rest))
  {
    assert ([first] + rest)[1..] == rest;
  }

  lemma TextAndHtmlShapes(d: Draft)
    ensures ShapeOf(CreateTextPart(d)) == TextLeaf && ShapeOf(CreateHtmlPart(d)) == HtmlLeaf
  {
  }

  /** The related multipart: the html leaf, then one inline leaf per image. */
  lemma RelatedShape(d: Draft, env: JavaMail)
    ensures ShapeOf(Container(RELATED, map[], [CreateHtmlPart(d)] + ImageParts(d.inlineImages, d.charset, env))) ==
      Multi(RELATED, [HtmlLeaf] + seq(|d.inlineImages|, _ => InlineLeaf))
  {
    TextAndHtmlShapes(d);
    ShapeOfCons(RELATED, map[], CreateHtmlPart(d), ImageParts(d.inlineImages, d.charset, env));
    ImagePartsShape(d.inlineImages, d.charset, env);
  }

  /** The alternative multipart has the text leaf first, then the html leaf or the related multipart. */
  lemma AlternativeShape(d: Draft, env: JavaMail)
    ensures ShapeOf(AlternativeOf(d, env)) ==
      Multi(ALTERNATIVE, [TextLeaf,
        if d.inlineImages == [] then HtmlLeaf
        else Multi(RELATED, [HtmlLeaf] + seq(|d.inlineImages|, _ => InlineLeaf))])
  {
    TextAndHtmlShapes(d);
    var t := CreateTextPart(d);
    if d.inlineImages != [] {
      var related := Container(RELATED, map[], [CreateHtmlPart(d)] + ImageParts(d.inlineImages, d.charset, env));
      RelatedShape(d, env);
      ShapeOfCons(ALTERNATIVE, map[], t, [related]);
    } else {
      ShapeOfCons(ALTERNATIVE, map[], t, [CreateHtmlPart(d)]);
    }
  }

  /**
   * The composed body follows the decision table: inline images appear
   * only with html, attachments follow in list order, and the text leaf
   * comes first.
   */
  lemma ComposeFollowsTable(d: Draft, env: JavaMail)
    ensures ShapeOf(Compose(d, env)) == Table(IsNotBlank(d.html), |d.attachments|, |d.inlineImages|)
  {
    if IsBlank(d.html) {
      if d.attachments == [] {
        TextContentTypeIsPlain(d.charset);
      } else {
        MixedTextShape(d, env);
      }
    } else if d.attachments == [] {
      AlternativeShape(d, env);
      assert Body(d, env) == AlternativeOf(d, env);
    } else {
      MixedAlternativeShape(d, env);
    }
  }

  lemma MixedTextShape(d: Draft, env: JavaMail)
    requires IsBlank(d.html) && d.attachments != []
    ensures ShapeOf(Compose(d, env)) == Multi(MIXED, [TextLeaf] + seq(|d.attachments|, _ => AttachmentLeaf))
  {
    var atts := AttachmentParts(d.attachments, d.charset, env);
    AttachmentPartsShape(d.attachments, d.charset, env);
    TextAndHtmlShapes(d);
    assert Compose(d, env) == Container(MIXED, PartHeaders(d.headers), [CreateTextPart(d)] + atts);
    ShapeOfCons(MIXED, PartHeaders(d.headers), CreateTextPart(d), atts);
  }

  lemma MixedAlternativeShape(d: Draft, env: JavaMail)
    requires IsNotBlank(d.html) && d.attachments != []
    ensures ShapeOf(Compose(d, env)) == Multi(MIXED, [ShapeOf(AlternativeOf(d, env))] + seq(|d.attachments|, _ => AttachmentLeaf))
    ensures ShapeOf(Compose(d, env)) == Table(true, |d.attachments|, |d.inlineImages|)
  {
    var atts := AttachmentParts(d.attachments, d.charset, env);
    AttachmentPartsShape(d.attachments, d.charset, env);
    assert Compose(d, env) == Container(MIXED, PartHeaders(d.headers), [AlternativeOf(d, env)] + atts);
    ShapeOfCons(MIXED, PartHeaders(d.headers), AlternativeOf(d, env), atts);
    AlternativeShape(d, env);
  }

  /**
   * Below the top of the message, a text or html leaf carries exactly the
   * registered headers, and every file leaf and wrapper part carries none.
   */
  predicate HeadersPlaced(n: MimeNode, hs: map<string, string>)
    decreases n
  {
    match n
    case Leaf(_, headers, disposition, _, _, _, _) =>
      headers == (if disposition.None? then PartHeaders(hs) else map[])
    case Container(_, headers, children) =>
      headers == map[] && forall i :: 0 <= i < |children| ==> HeadersPlaced(children[i], hs)
  }

  lemma FilePartsPlaced(d: Draft, env: JavaMail)
    ensures var ps := AttachmentParts(d.attachments, d.charset, env);
      forall i :: 0 <= i < |ps| ==> HeadersPlaced(ps[i], d.headers)
    ensures var ps := ImageParts(d.inlineImages, d.charset, env);
      forall i :: 0 <= i < |ps| ==> HeadersPlaced(ps[i], d.headers)
  {
  }

  lemma TextAndHtmlPlaced(d: Draft)
    ensures HeadersPlaced(CreateTextPart(d), d.headers)
    ensures HeadersPlaced(CreateHtmlPart(d), d.headers)
  {
  }

  /** A container without headers is placed when each of its children is. */
  lemma ContainerPlaced(sub: string, first: MimeNode, rest: seq<MimeNode>, hs: map<string, string>)
    requires HeadersPlaced(first, hs)
    requires forall i :: 0 <= i < |rest| ==> HeadersPlaced(rest[i], hs)
    ensures HeadersPlaced(Container(sub, map[], [first] + rest), hs)
  {
    var cs := [first] + rest;
    assert forall i :: 1 <= i < |cs| ==> cs[i] == rest[i - 1];
  }

  lemma RelatedPlaced(d: Draft, env: JavaMail)
    ensures HeadersPlaced(Container(RELATED, map[], [CreateHtmlPart(d)] + ImageParts(d.inlineImages, d.charset, env)), d.headers)
  {
    TextAndHtmlPlaced(d);
    FilePartsPlaced(d, env);
    ContainerPlaced(RELATED, CreateHtmlPart(d), ImageParts(d.inlineImages, d.charset, env), d.headers);
  }

  lemma AlternativePlaced(d: Draft, env: JavaMail)
    ensures HeadersPlaced(AlternativeOf(d, env), d.headers)
  {
    TextAndHtmlPlaced(d);
    var t := CreateTextPart(d);
    if d.inlineImages == [] {
      assert AlternativeOf(d, env) == Container(ALTERNATIVE, map[], [t] + [CreateHtmlPart(d)]);
      ContainerPlaced(ALTERNATIVE, t, [CreateHtmlPart(d)], d.headers);
    } else {
      var related := Container(RELATED, map[], [CreateHtmlPart(d)] + ImageParts(d.inlineImages, d.charset, env));
      RelatedPlaced(d, env);
      assert AlternativeOf(d, env) == Container(ALTERNATIVE, map[], [t] + [related]);
      ContainerPlaced(ALTERNATIVE, t, [related], d.headers);
    }
  }

  /**
   * The headers reach the message itself and every text and html leaf,
   * and no attachment, inline image or wrapper part.
   */
  lemma ComposePlacesHeaders(d: Draft, env: JavaMail)
    ensures Compose(d, env).headers == PartHeaders(d.headers)
    ensures Compose(d, env).Container? ==>
      forall i :: 0 <= i < |Compose(d, env).children| ==> HeadersPlaced(Compose(d, env).children[i], d.headers)
  {
    var body := Body(d, env);
    if body.Container? {
      BodyPlaced(d, env);
      assert Compose(d, env).children == body.children;
    }
  }

  lemma BodyPlaced(d: Draft, env: JavaMail)
    ensures Body(d, env).Container? ==> HeadersPlaced(Body(d, env), d.headers)
  {
    if IsBlank(d.html) {
      if d.attachments != [] {
        MixedTextPlaced(d, env);
      }
    } else {
      AlternativePlaced(d, env);
      if d.attachments != [] {
        MixedAlternativePlaced(d, env);
      }
    }
  }

  lemma MixedTextPlaced(d: Draft, env: JavaMail)
    ensures HeadersPlaced(Container(MIXED, map[], [CreateTextPart(d)] + AttachmentParts(d.attachments, d.charset, env)), d.headers)
  {
    FilePartsPlaced(d, env);
    TextAndHtmlPlaced(d);
    ContainerPlaced(MIXED, CreateTextPart(d), AttachmentParts(d.attachments, d.charset, env), d.headers);
  }

  lemma MixedAlternativePlaced(d: Draft, env: JavaMail)
    ensures HeadersPlaced(Container(MIXED, map[], [AlternativeOf(d, env)] + AttachmentParts(d.attachments, d.charset, env)), d.headers)
  {
    FilePartsPlaced(d, env);
    AlternativePlaced(d, env);
    ContainerPlaced(MIXED, AlternativeOf(d, env), AttachmentParts(d.attachments, d.charset, env), d.headers);
  }

  /** The present values of `items`, in order: Java's skipping of null arguments. */
  function Present<T>(items: seq<Option<T>>): seq<T>
    decreases |items|
  {
    if items == [] then []
    else
      var last := items[|items| - 1];
      Present(items[..|items| - 1]) + (if last.Some? then [last.value] else [])
  }

  /** Skipping nulls keeps every present value, in order. */
  lemma {:induction false} PresentKeepsOrder<T>(a: seq<Option<T>>, b: seq<Option<T>>)
    ensures Present(a + b) == Present(a) + Present(b)
    decreases |b|
  {
    if b == [] {
      assert a + b == a;
    } else {
      var b0 := b[..|b| - 1];
      assert (a + b)[..|a + b| - 1] == a + b0;
      assert (a + b)[|a + b| - 1] == b[|b| - 1];
      PresentKeepsOrder(a, b0);
      var tail := if b[|b| - 1].Some? then [b[|b| - 1].value] else [];
      assert Present(a + b) == Present(a + b0) + tail;
    }
  }

  /** Nothing but nulls are dropped. */
  lemma {:induction false} PresentCounts<T>(items: seq<Option<T>>)
    ensures |Present(items)| <= |items|
    ensures (forall i :: 0 <= i < |items| ==> items[i].Some?) ==> |Present(items)| == |items|
    ensures forall v :: v in Present(items) <==> Some(v) in items
    decreases |items|
  {
    if items != [] {
      var init := items[..|items| - 1];
      PresentCounts(init);
      assert items == init + [items[|items| - 1]];
    }
  }

  /** The loop of the list setters: append every non-null argument. */
  method AppendPresent<T>(list: seq<T>, items: seq<Option<T>>) returns (r: seq<T>)
    ensures r == list + Present(items)
  {
    r := list;
    for i := 0 to |items|
      invariant r == list + Present(items[..i])
    {
      assert items[..i + 1][..i] == items[..i];
      if items[i].Some? {
        r := r + [items[i].value];
      }
    }
    assert items[..|items|] == items;
  }

  class MailSender {
    const properties: Properties.MailProperties
    var isDebug: bool
    var useDefaultSession: bool
    var headers: map<string, string>
    var charset: string
    var fromAddress: Option<MailAddress>
    var replyToAddressList: seq<MailAddress>
    var toAddressList: seq<MailAddress>
    var ccAddressList: seq<MailAddress>
    var bccAddressList: seq<MailAddress>
    var subject: Option<string>
    var text: Option<string>
    var html: Option<string>
    var attachmentFileList: seq<AttachmentFile>
    var inlineImageFileList: seq<InlineImage>

    /** The constructor: charset ISO-2022-JP with a 7bit transfer encoding. */
    constructor(properties: Properties.MailProperties)
      ensures this.properties == properties
      ensures !isDebug && useDefaultSession
      ensures charset == DEFAULT_CHARSET
      ensures headers == map[CONTENT_TRANSFER_ENCODING := DEFAULT_TRANSFER_ENCODING]
      ensures fromAddress.None? && subject.None? && text.None? && html.None?
      ensures replyToAddressList == [] && toAddressList == [] && ccAddressList == [] && bccAddressList == []
      ensures attachmentFileList == [] && inlineImageFileList == []
    {
      this.properties := properties;
      isDebug := false;
      useDefaultSession := true;
      headers := map[];
      charset := "";
      fromAddress := None;
      replyToAddressList := [];
      toAddressList := [];
      ccAddressList := [];
      bccAddressList := [];
      subject := None;
      text := None;
      html := None;
      attachmentFileList := [];
      inlineImageFileList := [];
      new;
      NotBlankByFirst(DEFAULT_CHARSET);
      NotBlankByFirst(DEFAULT_TRANSFER_ENCODING);
      CharsetWithEncoding(Some(DEFAULT_CHARSET), Some(DEFAULT_TRANSFER_ENCODING));
    }

    /** The fields `setContent` reads. */
    function DraftOf(): Draft
      reads this
    {
      Draft(headers, charset, text, html, attachmentFileList, inlineImageFileList)
    }

    /** `debug(isDebug)`. */
    method Debug(isDebug: bool)
      modifies this`isDebug
      ensures this.isDebug == isDebug
    {
      this.isDebug := isDebug;
    }

    /** `useDefaultSession(useDefaultSession)`. */
    method UseDefaultSession(useDefaultSession: bool)
      modifies this`useDefaultSession
      ensures this.useDefaultSession == useDefaultSession
    {
      this.useDefaultSession := useDefaultSession;
    }

    /** `header(key, value)`: stored only when both are non-blank; a later value wins. */
    method Header(key: Option<string>, value: Option<string>)
      modifies this`headers
      ensures headers == if IsNotBlank(key) && IsNotBlank(value)
                         then old(headers)[key.value := value.value] else old(headers)
    {
      if IsNotBlank(key) && IsNotBlank(value) {
        headers := headers[key.value := value.value];
      }
    }

    /** `charset(charset)`: a blank charset is ignored. */
    method Charset(cs: Option<string>)
      modifies this`charset
      ensures charset == if IsNotBlank(cs) then cs.value else old(charset)
    {
      if IsNotBlank(cs) {
        charset := cs.value;
      }
    }

    /** `charset(charset, contentTransferEncoding)`: both, or nothing when the charset is blank. */
    method CharsetWithEncoding(cs: Option<string>, contentTransferEncoding: Option<string>)
      modifies this`charset, this`headers
      ensures IsBlank(cs) ==> charset == old(charset) && headers == old(headers)
      ensures IsNotBlank(cs) ==> charset == cs.value
      ensures IsNotBlank(cs) ==>
        headers == if IsNotBlank(contentTransferEncoding)
                   then old(headers)[CONTENT_TRANSFER_ENCODING := contentTransferEncoding.value]
                   else old(headers)
    {
      if IsNotBlank(cs) {
        Charset(cs);
        NotBlankByFirst(CONTENT_TRANSFER_ENCODING);
        Header(Some(CONTENT_TRANSFER_ENCODING), contentTransferEncoding);
      }
    }

    /** `from(address)`: null is ignored. */
    method From(address: Option<MailAddress>)
      modifies this`fromAddress
      ensures fromAddress == if address.Some? then address else old(fromAddress)
    {
      if address.Some? {
        fromAddress := address;
      }
    }

    method ReplyTo(addresses: seq<Option<MailAddress>>)
      modifies this`replyToAddressList
      ensures replyToAddressList == old(replyToAddressList) + Present(addresses)
    {
      replyToAddressList := AppendPresent(replyToAddressList, addresses);
    }

    method To(addresses: seq<Option<MailAddress>>)
      modifies this`toAddressList
      ensures toAddressList == old(toAddressList) + Present(addresses)
    {
      toAddressList := AppendPresent(toAddressList, addresses);
    }

    method Cc(addresses: seq<Option<MailAddress>>)
      modifies this`ccAddressList
      ensures ccAddressList == old(ccAddressList) + Present(addresses)
    {
      ccAddressList := AppendPresent(ccAddressList, addresses);
    }

    method Bcc(addresses: seq<Option<MailAddress>>)
      modifies this`bccAddressList
      ensures bccAddressList == old(bccAddressList) + Present(addresses)
    {
      bccAddressList := AppendPresent(bccAddressList, addresses);
    }

    /** `subject(subject)`: a blank subject is ignored. */
    method Subject(s: Option<string>)
      modifies this`subject
      ensures subject == if IsNotBlank(s) then s else old(subject)
    {
      if IsNotBlank(s) {
        subject := s;
      }
    }

    /** `text(text)`: a blank text is ignored. */
    method Text(s: Option<string>)
      modifies this`text
      ensures text == if IsNotBlank(s) then s else old(text)
    {
      if IsNotBlank(s) {
        text := s;
      }
    }

    /** `html(html)`: a blank html body is ignored. */
    method Html(s: Option<string>)
      modifies this`html
      ensures html == if IsNotBlank(s) then s else old(html)
    {
      if IsNotBlank(s) {
        html := s;
      }
    }

    method AttachmentFiles(files: seq<Option<AttachmentFile>>)
      modifies this`attachmentFileList
      ensures attachmentFileList == old(attachmentFileList) + Present(files)
    {
      attachmentFileList := AppendPresent(attachmentFileList, files);
    }

    method InlineImageFiles(files: seq<Option<InlineImage>>)
      modifies this`inlineImageFileList
      ensures inlineImageFileList == old(inlineImageFileList) + Present(files)
    {
      inlineImageFileList := AppendPresent(inlineImageFileList, files);
    }

    /** The `for (AttachmentFile file : attachmentFileList)` loops of `setContent`. */
    method AddAttachmentParts(multipart: seq<MimeNode>, env: JavaMail) returns (r: seq<MimeNode>)
      ensures r == multipart + AttachmentParts(attachmentFileList, charset, env)
    {
      r := multipart;
      for i := 0 to |attachmentFileList|
        invariant r == multipart + AttachmentParts(attachmentFileList[..i], charset, env)
      {
        r := r + [CreateAttachmentPart(attachmentFileList[i], charset, env)];
      }
      assert attachmentFileList[..|attachmentFileList|] == attachmentFileList;
    }

    /** The `for (InlineImageFile file : inlineImageFileList)` loops of `setContent`. */
    method AddImageParts(multipart: seq<MimeNode>, env: JavaMail) returns (r: seq<MimeNode>)
      ensures r == multipart + ImageParts(inlineImageFileList, charset, env)
    {
      r := multipart;
      for i := 0 to |inlineImageFileList|
        invariant r == multipart + ImageParts(inlineImageFileList[..i], charset, env)
      {
        r := r + [CreateImagePart(inlineImageFileList[i], charset, env)];
      }
      assert inlineImageFileList[..|inlineImageFileList|] == inlineImageFileList;
    }

    /** `setContent(message)`: builds the message body from the fields. */
    method SetContent(env: JavaMail) returns (message: MimeNode)
      ensures message == Compose(DraftOf(), env)
    {
      var d := DraftOf();
      if IsBlank(html) {
        if attachmentFileList == [] {
          message := Leaf(TextContentType(charset), map[], None, None, None, false, Chars(text));
        } else {
          var mixed := AddAttachmentParts([CreateTextPart(d)], env);
          message := Container(MIXED, map[], mixed);
        }
      } else {
        var second: MimeNode;
        if inlineImageFileList == [] {
          second := CreateHtmlPart(d);
        } else {
          var related := AddImageParts([CreateHtmlPart(d)], env);
          second := Container(RELATED, map[], related);
        }
        var alternative := Container(ALTERNATIVE, map[], [CreateTextPart(d), second]);
        if attachmentFileList == [] {
          message := alternative;
        } else {
          var mixed := AddAttachmentParts([alternative], env);
          message := Container(MIXED, map[], mixed);
        }
      }
      message := SetHeaderToPart(message, headers);
    }
  }
}
