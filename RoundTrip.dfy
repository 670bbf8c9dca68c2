/**
 * Sending and receiving together: a message composed by `MailSender` and
 * read by `MessageLoader` gives back the sender's text, html, attachments
 * and inline images.
 */
module RoundTrip {
  import opened Wrappers
  import opened JavaStrings
  import opened Mime
  import opened Attachments
  import opened Sender
  import opened Loader

  /** What an attached file comes back as: a plain attachment with the same name and data. */
  function AsReceived(f: AttachmentFile): (r: AttachmentFile)
    ensures r.AttachmentFile? && r.fileName == f.fileName && r.dataSource == f.dataSource
  {
    AttachmentFile(f.fileName, f.dataSource)
  }

  function ReceivedAll(files: seq<AttachmentFile>): seq<AttachmentFile>
    decreases |files|
  {
    if files == [] then [] else [AsReceived(files[0])] + ReceivedAll(files[1..])
  }

  /**
   * A file part the loader files under its disposition: the codec gives
   * its name back, and its content type is neither multipart nor text.
   * When the message is saved, JavaMail appends the encoded file name to
   * the part's content type as its `name` parameter, so that name must
   * not contain `multipart` either.
   */
  predicate FileReadable(f: AttachmentFile, charset: string, env: JavaMail) {
    env.decodeText(env.encodeText(f.fileName, charset)) == f.fileName &&
    !Contains(env.encodeText(f.fileName, charset), MULTIPART) &&
    !Contains(f.dataSource.contentType, MULTIPART) &&
    !IsMimeType(f.dataSource.contentType, "text/html") &&
    !IsMimeType(f.dataSource.contentType, "text/plain")
  }

  /** Every file of `files` is readable. */
  predicate AllReadable(files: seq<AttachmentFile>, charset: string, env: JavaMail)
    decreases |files|
  {
    files == [] || (FileReadable(files[0], charset, env) && AllReadable(files[1..], charset, env))
  }

  /**
   * No registered header is one that JavaMail reads back as a part field
   * (`Content-Type`, `Content-Disposition`, `Content-ID`, in any case).
   */
  predicate NoFieldHeaders(hs: map<string, string>) {
    forall k :: k in hs ==>
      LowerAscii(k) != "content-type" && LowerAscii(k) != "content-disposition" && LowerAscii(k) != "content-id"
  }

  /**
   * The draft's message can be read back: there is a text body, the
   * charset does not make a body's content type name a multipart, no
   * registered header stands for a part field, and every file is readable.
   */
  predicate Readable(d: Draft, env: JavaMail) {
    d.text.Some? &&
    NoFieldHeaders(d.headers) &&
    !Contains(TextContentType(d.charset), MULTIPART) &&
    !Contains(HtmlContentType(d.charset), MULTIPART) &&
    AllReadable(d.attachments, d.charset, env) &&
    AllReadable(d.inlineImages, d.charset, env)
  }

  /**
   * What the loader should find in the draft's message: the text, the html
   * if there is any, the attachments in order, and the inline images in
   * order when there is html (without html they are not sent).
   */
  function Expected(d: Draft): Content
    requires d.text.Some?
  {
    var hasHtml := IsNotBlank(d.html);
    Content(d.text.value,
            if hasHtml then d.html.value else "",
            ReceivedAll(d.attachments),
            if hasHtml then d.inlineImages else [],
            None)
  }

  lemma StepAttachment(f: AttachmentFile, c: Content, charset: string, env: JavaMail)
    requires FileReadable(f, charset, env)
    ensures Step(CreateAttachmentPart(f, charset, env), c, env) ==
      Success(c.(attachments := c.attachments + [AsReceived(f)]))
  {
  }

  lemma StepImage(f: InlineImage, c: Content, charset: string, env: JavaMail)
    requires FileReadable(f, charset, env)
    ensures Step(CreateImagePart(f, charset, env), c, env) ==
      Success(c.(inlineImages := c.inlineImages + [f]))
  {
  }

  /** The attachment parts are read back as the attachments, in order. */
  lemma {:induction false} WalkAttachments(files: seq<AttachmentFile>, c: Content, charset: string, env: JavaMail)
    requires AllReadable(files, charset, env)
    ensures Walk(AttachmentParts(files, charset, env), c, env) ==
      Success(c.(attachments := c.attachments + ReceivedAll(files)))
    decreases |files|
  {
    var ps := AttachmentParts(files, charset, env);
    if files == [] {
      assert c.attachments + ReceivedAll(files) == c.attachments;
    } else {
      var p0, rest := CreateAttachmentPart(files[0], charset, env), AttachmentParts(files[1..], charset, env);
      var c' := c.(attachments := c.attachments + [AsReceived(files[0])]);
      StepAttachment(files[0], c, charset, env);
      WalkAfterLeaf(p0, rest, c, c', env);
      WalkAttachments(files[1..], c', charset, env);
      Associative(c.attachments, [AsReceived(files[0])], ReceivedAll(files[1..]));
    }
  }

  /** The inline parts are read back as the inline images, in order. */
  lemma {:induction false} WalkImages(files: seq<InlineImage>, c: Content, charset: string, env: JavaMail)
    requires AllReadable(files, charset, env)
    ensures Walk(ImageParts(files, charset, env), c, env) ==
      Success(c.(inlineImages := c.inlineImages + files))
    decreases |files|
  {
    var ps := ImageParts(files, charset, env);
    if files == [] {
      assert c.inlineImages + files == c.inlineImages;
    } else {
      var p0, rest := CreateImagePart(files[0], charset, env), ImageParts(files[1..], charset, env);
      var c' := c.(inlineImages := c.inlineImages + [files[0]]);
      StepImage(files[0], c, charset, env);
      WalkAfterLeaf(p0, rest, c, c', env);
      WalkImages(files[1..], c', charset, env);
      assert files == [files[0]] + files[1..];
      Associative(c.inlineImages, [files[0]], files[1..]);
    }
  }

  lemma StepTextPart(d: Draft, c: Content, env: JavaMail)
    requires Readable(d, env)
    ensures Step(CreateTextPart(d), c, env) == Success(c.(text := d.text.value))
  {
    StepText(CreateTextPart(d), c, env);
  }

  lemma StepHtmlPart(d: Draft, c: Content, env: JavaMail)
    requires Readable(d, env) && IsNotBlank(d.html)
    ensures Step(CreateHtmlPart(d), c, env) == Success(c.(html := d.html.value))
  {
    StepHtml(CreateHtmlPart(d), c, env);
  }

  /** The related part gives the html and the inline images. */
  lemma WalkRelated(d: Draft, c: Content, env: JavaMail)
    requires Readable(d, env) && IsNotBlank(d.html)
    ensures Walk([CreateHtmlPart(d)] + ImageParts(d.inlineImages, d.charset, env), c, env) ==
      Success(c.(html := d.html.value, inlineImages := c.inlineImages + d.inlineImages))
  {
    var c1 := c.(html := d.html.value);
    StepHtmlPart(d, c, env);
    WalkAfterLeaf(CreateHtmlPart(d), ImageParts(d.inlineImages, d.charset, env), c, c1, env);
    WalkImages(d.inlineImages, c1, d.charset, env);
  }

  /** The alternative part gives the text, the html and, inside a related part, the inline images. */
  lemma WalkAlternative(d: Draft, c: Content, env: JavaMail)
    requires Readable(d, env) && IsNotBlank(d.html)
    ensures Walk(AlternativeOf(d, env).children, c, env) ==
      Success(c.(text := d.text.value, html := d.html.value, inlineImages := c.inlineImages + d.inlineImages))
  {
    var t := CreateTextPart(d);
    var c1 := c.(text := d.text.value);
    StepTextPart(d, c, env);
    if d.inlineImages == [] {
      WalkPlainAlternative(d, c, env);
    } else {
      var related := Container(RELATED, map[], [CreateHtmlPart(d)] + ImageParts(d.inlineImages, d.charset, env));
      assert AlternativeOf(d, env).children == [t] + [related];
      WalkAfterLeaf(t, [related], c, c1, env);
      WalkRelated(d, c1, env);
      WalkAfterContainer(related, [], c1, c1.(html := d.html.value, inlineImages := c1.inlineImages + d.inlineImages), env);
    }
  }

  lemma WalkPlainAlternative(d: Draft, c: Content, env: JavaMail)
    requires Readable(d, env) && IsNotBlank(d.html) && d.inlineImages == []
    ensures Walk(AlternativeOf(d, env).children, c, env) ==
      Success(c.(text := d.text.value, html := d.html.value, inlineImages := c.inlineImages + d.inlineImages))
  {
    var t, h := CreateTextPart(d), CreateHtmlPart(d);
    var c1 := c.(text := d.text.value);
    StepTextPart(d, c, env);
    StepHtmlPart(d, c1, env);
    assert AlternativeOf(d, env).children == [t] + [h];
    WalkAfterLeaf(t, [h], c, c1, env);
    WalkAfterLeaf(h, [], c1, c1.(html := d.html.value), env);
    assert c.inlineImages + d.inlineImages == c.inlineImages;
  }

  /** Reading ignores registered headers that do not stand for a part field. */
  lemma ExtractIgnoresHeaders(n: MimeNode, hs: map<string, string>, env: JavaMail)
    requires NoFieldHeaders(hs)
    ensures Extract(SetHeaderToPart(n, hs), env) == Extract(n, env)
  {
  }

  lemma ReadBackText(d: Draft, env: JavaMail)
    requires Readable(d, env) && IsBlank(d.html) && d.attachments == []
    ensures Extract(Body(d, env), env) == Success(Expected(d))
  {
  }

  lemma ReadBackTextWithFiles(d: Draft, env: JavaMail)
    requires Readable(d, env) && IsBlank(d.html) && d.attachments != []
    ensures Extract(Body(d, env), env) == Success(Expected(d))
  {
    var atts := AttachmentParts(d.attachments, d.charset, env);
    var c1 := EMPTY_CONTENT.(text := d.text.value);
    var children := [CreateTextPart(d)] + atts;
    assert Body(d, env) == Container(MIXED, map[], children);
    StepTextPart(d, EMPTY_CONTENT, env);
    WalkAfterLeaf(CreateTextPart(d), atts, EMPTY_CONTENT, c1, env);
    WalkAttachments(d.attachments, c1, d.charset, env);
    assert Extract(Body(d, env), env) == Walk(children, EMPTY_CONTENT, env);
    assert [] + ReceivedAll(d.attachments) == ReceivedAll(d.attachments);
  }

  lemma ReadBackHtml(d: Draft, env: JavaMail)
    requires Readable(d, env) && IsNotBlank(d.html) && d.attachments == []
    ensures Extract(Body(d, env), env) == Success(Expected(d))
  {
    WalkAlternative(d, EMPTY_CONTENT, env);
    assert [] + d.inlineImages == d.inlineImages;
  }

  lemma ReadBackHtmlWithFiles(d: Draft, env: JavaMail)
    requires Readable(d, env) && IsNotBlank(d.html) && d.attachments != []
    ensures Extract(Body(d, env), env) == Success(Expected(d))
  {
    var atts := AttachmentParts(d.attachments, d.charset, env);
    var c1 := EMPTY_CONTENT.(text := d.text.value, html := d.html.value, inlineImages := d.inlineImages);
    assert [] + d.inlineImages == d.inlineImages;
    var children := [AlternativeOf(d, env)] + atts;
    assert Body(d, env) == Container(MIXED, map[], children);
    WalkAlternative(d, EMPTY_CONTENT, env);
    WalkAfterContainer(AlternativeOf(d, env), atts, EMPTY_CONTENT, c1, env);
    WalkAttachments(d.attachments, c1, d.charset, env);
    assert Extract(Body(d, env), env) == Walk(children, EMPTY_CONTENT, env);
    assert [] + ReceivedAll(d.attachments) == ReceivedAll(d.attachments);
  }

  /**
   * Reading back what `setContent` built gives the sender's text, html,
   * attachments in order and, when there is html, inline images in order;
   * no partial content.
   */
  lemma ReadBackComposed(d: Draft, env: JavaMail)
    requires Readable(d, env)
    ensures Extract(Compose(d, env), env) == Success(Expected(d))
  {
    ExtractIgnoresHeaders(Body(d, env), d.headers, env);
    if IsBlank(d.html) {
      if d.attachments == [] {
        ReadBackText(d, env);
      } else {
        ReadBackTextWithFiles(d, env);
      }
    } else if d.attachments == [] {
      ReadBackHtml(d, env);
    } else {
      ReadBackHtmlWithFiles(d, env);
    }
  }

  /** A text/plain attachment is taken for the text body and is not listed as a file. */
  lemma TextAttachmentReadAsText(f: AttachmentFile, s: string, c: Content, charset: string, env: JavaMail)
    requires f.dataSource.payload == Chars(Some(s))
    requires IsMimeType(f.dataSource.contentType, "text/plain")
    requires !Contains(f.dataSource.contentType, MULTIPART)
    ensures Walk([CreateAttachmentPart(f, charset, env)], c, env) == Success(c.(text := s))
  {
    StepText(CreateAttachmentPart(f, charset, env), c, env);
    WalkAfterLeaf(CreateAttachmentPart(f, charset, env), [], c, c.(text := s), env);
  }
}
