/**
 * `MessageLoader`: reads a received message. Its content is one walk over
 * the MIME tree that sorts the leaves into a text body, an html body, a
 * list of attachments and a list of inline images; a message whose content
 * is a raw byte stream (a `message/partial` fragment) yields that stream.
 */
module Loader {
  import opened Wrappers
  import opened JavaStrings
  import opened Mime
  import opened Attachments
  import opened Address

  /** The values of `MessageContent`'s fields. */
  datatype Content = Content(
    text: string,
    html: string,
    attachments: seq<AttachmentFile>,
    inlineImages: seq<InlineImage>,
    partialContent: Option<seq<bv8>>)

  /** A fresh `MessageContent`: empty bodies, empty lists, no partial content. */
  const EMPTY_CONTENT: Content := Content("", "", [], [], None)

  /** The exceptions the walk can raise. */
  datatype LoadError = NullPointer | ClassCast

  const MULTIPART: string := "multipart"
  const MESSAGE_PARTIAL: string := "message/partial"

  /** `getContent().toString()` of a part that is not a multipart. */
  function ContentString(p: Payload, env: JavaMail): (r: Result<string, LoadError>)
    ensures r.Failure? <==> p == Chars(None)
    ensures p.Chars? && r.Success? ==> r.value == p.text.value
  {
    match p
    case Chars(Some(s)) => Success(s)
    case Chars(None) => Failure(NullPointer)
    case Bytes(b) => Success(env.streamString(b))
  }

  /** A leaf that is neither text/html nor text/plain: a file, if its disposition says so. */
  predicate IsFileLeaf(n: MimeNode) {
    n.Leaf? && !IsMimeType(n.contentType, "text/html") && !IsMimeType(n.contentType, "text/plain")
  }

  /** The file an attachment leaf is read back as. */
  function AttachmentOf(n: MimeNode, env: JavaMail): AttachmentFile
    requires n.Leaf? && n.fileName.Some?
  {
    AttachmentFile(env.decodeText(n.fileName.value), DataSourceOf(n))
  }

  /** The file an inline leaf is read back as; only a `MimeBodyPart` has a content id. */
  function InlineImageOf(n: MimeNode, env: JavaMail): InlineImage
    requires n.Leaf? && n.fileName.Some?
  {
    var cid := if n.isMimeBodyPart then n.contentId else Some("");
    InlineImageFile(cid, env.decodeText(n.fileName.value), DataSourceOf(n))
  }

  /**
   * One leaf of a multipart whose content type holds no `multipart`:
   * html or text overwrite their body, an attachment or inline leaf appends
   * its file (a null file name throws in `decodeText`), anything else is
   * dropped.
   */
  function ReadLeaf(n: MimeNode, c: Content, env: JavaMail): Result<Content, LoadError>
    requires n.Leaf?
  {
    if IsMimeType(n.contentType, "text/html") then
      match ContentString(n.payload, env)
      case Success(s) => Success(c.(html := s))
      case Failure(e) => Failure(e)
    else if IsMimeType(n.contentType, "text/plain") then
      match ContentString(n.payload, env)
      case Success(s) => Success(c.(text := s))
      case Failure(e) => Failure(e)
    else if n.disposition == Some(ATTACHMENT) then
      if n.fileName.None? then Failure(NullPointer)
      else Success(c.(attachments := c.attachments + [AttachmentOf(n, env)]))
    else if n.disposition == Some(INLINE) then
      if n.fileName.None? then Failure(NullPointer)
      else Success(c.(inlineImages := c.inlineImages + [InlineImageOf(n, env)]))
    else
      Success(c)
  }

  /**
   * A leaf reached by the walk: a content type naming `multipart` on
   * content that is not a multipart fails the cast.
   */
  function Step(n: MimeNode, c: Content, env: JavaMail): Result<Content, LoadError> {
    if n.Container? || Contains(n.contentType, MULTIPART) then Failure(ClassCast)
    else ReadLeaf(n, c, env)
  }

  /**
   * `setMultipartContent`: the children in index order, descending into
   * every nested multipart, feeding the same content; the first exception
   * ends the walk. The model gives every container the content type
   * `multipart/<subtype>`, written in lower case, so within the model the
   * case-sensitive test on the content type sends exactly the containers
   * down; a multipart part whose header is written otherwise is not
   * represented.
   */
  function Walk(parts: seq<MimeNode>, c: Content, env: JavaMail): Result<Content, LoadError>
    decreases parts
  {
    if parts == [] then Success(c)
    else
      var p := parts[0];
      var r := if p.Container? then Walk(p.children, c, env) else Step(p, c, env);
      match r
      case Failure(e) => Failure(e)
      case Success(c') => Walk(parts[1..], c', env)
  }

  /** `getContent` on a message, without the cache. */
  function Extract(root: MimeNode, env: JavaMail): Result<Content, LoadError> {
    match root
    case Container(_, _, children) => Walk(children, EMPTY_CONTENT, env)
    case Leaf(_, _, _, _, _, _, Bytes(b)) => Success(EMPTY_CONTENT.(partialContent := Some(b)))
    case Leaf(_, _, _, _, _, _, payload) =>
      match ContentString(payload, env)
      case Success(s) => Success(EMPTY_CONTENT.(text := s))
      case Failure(e) => Failure(e)
  }

  /** A container's content type, `multipart/...` in lower case, names `multipart`. */
  lemma ContainerIsMultipart(n: MimeNode)
    requires n.Container?
    ensures Contains(ContentTypeOf(n), MULTIPART)
  {
    assert ContentTypeOf(n) == MULTIPART + ("/" + n.subtype);
    ContainsAt(ContentTypeOf(n), MULTIPART, 0);
  }

  /** A byte-stream message yields only its partial content. */
  lemma ExtractStream(root: MimeNode, env: JavaMail)
    requires root.Leaf? && root.payload.Bytes?
    ensures Extract(root, env).Success?
    ensures var c := Extract(root, env).value;
      c.partialContent == Some(root.payload.bytes) && c.text == "" && c.html == "" &&
      c.attachments == [] && c.inlineImages == []
  {
  }

  /** A message whose content is a string has it as text and no html. */
  lemma ExtractString(root: MimeNode, env: JavaMail, s: string)
    requires root.Leaf? && root.payload == Chars(Some(s))
    ensures Extract(root, env) == Success(Content(s, "", [], [], None))
  {
  }

  /** A message whose content is null throws. */
  lemma ExtractNull(root: MimeNode, env: JavaMail)
    requires root.Leaf? && root.payload == Chars(None)
    ensures Extract(root, env) == Failure(NullPointer)
  {
  }

  /** The leaves the walk reads, in the order it reads them. */
  function Leaves(parts: seq<MimeNode>): (r: seq<MimeNode>)
    ensures forall i :: 0 <= i < |r| ==> r[i].Leaf?
    decreases parts
  {
    if parts == [] then []
    else (if parts[0].Container? then Leaves(parts[0].children) else [parts[0]]) + Leaves(parts[1..])
  }

  /** Reading a flat sequence of leaves, left to right, stopping at the first exception. */
  function Fold(leaves: seq<MimeNode>, c: Content, env: JavaMail): Result<Content, LoadError>
    decreases |leaves|
  {
    if leaves == [] then Success(c)
    else
      match Step(leaves[0], c, env)
      case Failure(e) => Failure(e)
      case Success(c') => Fold(leaves[1..], c', env)
  }

  /** Reading `a + b` is reading `a`, then `b` from where `a` left off. */
  lemma {:induction false} FoldAppend(a: seq<MimeNode>, b: seq<MimeNode>, c: Content, env: JavaMail)
    ensures Fold(a + b, c, env) ==
      match Fold(a, c, env)
      case Failure(e) => Failure(e)
      case Success(c') => Fold(b, c', env)
    decreases |a|
  {
    if a == [] {
      assert a + b == b;
    } else {
      assert (a + b)[1..] == a[1..] + b;
      match Step(a[0], c, env)
      case Failure(e) =>
      case Success(c') => FoldAppend(a[1..], b, c', env);
    }
  }

  /**
   * The recursive walk reads the leaves of the tree in document order:
   * nesting depth makes no difference to what ends up in the content.
   */
  lemma {:induction false} WalkIsFold(parts: seq<MimeNode>, c: Content, env: JavaMail)
    ensures Walk(parts, c, env) == Fold(Leaves(parts), c, env)
    decreases parts
  {
    if parts != [] {
      var p := parts[0];
      var first := if p.Container? then Leaves(p.children) else [p];
      var r := if p.Container? then Walk(p.children, c, env) else Step(p, c, env);
      if p.Container? {
        WalkIsFold(p.children, c, env);
      } else {
        FoldSingle(p, c, env);
      }
      FoldAppend(first, Leaves(parts[1..]), c, env);
      if r.Success? {
        WalkIsFold(parts[1..], r.value, env);
      }
    }
  }

  lemma FoldSingle(l: MimeNode, c: Content, env: JavaMail)
    ensures Fold([l], c, env) == Step(l, c, env)
  {
    assert [l][1..] == [];
  }

  /** The file an attachment leaf is read back as, if it is one. */
  function AttachmentOfLeaf(n: MimeNode, env: JavaMail): seq<AttachmentFile> {
    if IsFileLeaf(n) && n.disposition == Some(ATTACHMENT) && n.fileName.Some?
    then [AttachmentOf(n, env)] else []
  }

  /** The inline image an inline leaf is read back as, if it is one. */
  function InlineImageOfLeaf(n: MimeNode, env: JavaMail): seq<InlineImage> {
    if IsFileLeaf(n) && n.disposition == Some(INLINE) && n.fileName.Some?
    then [InlineImageOf(n, env)] else []
  }

  /** The files the attachment leaves of `leaves` are read back as, in order. */
  function AttachmentsOf(leaves: seq<MimeNode>, env: JavaMail): seq<AttachmentFile>
    decreases |leaves|
  {
    if leaves == [] then [] else AttachmentOfLeaf(leaves[0], env) + AttachmentsOf(leaves[1..], env)
  }

  /** The inline images the inline leaves of `leaves` are read back as, in order. */
  function InlineImagesOf(leaves: seq<MimeNode>, env: JavaMail): seq<InlineImage>
    decreases |leaves|
  {
    if leaves == [] then [] else InlineImageOfLeaf(leaves[0], env) + InlineImagesOf(leaves[1..], env)
  }

  /** One successful step appends the leaf's file, if any, and keeps the partial content. */
  lemma StepCollectsFiles(n: MimeNode, c: Content, env: JavaMail)
    requires Step(n, c, env).Success?
    ensures Step(n, c, env).value.attachments == c.attachments + AttachmentOfLeaf(n, env)
    ensures Step(n, c, env).value.inlineImages == c.inlineImages + InlineImageOfLeaf(n, env)
    ensures Step(n, c, env).value.partialContent == c.partialContent
  {
    if !IsFileLeaf(n) {
      assert c.attachments + [] == c.attachments;
      assert c.inlineImages + [] == c.inlineImages;
    } else if n.disposition == Some(ATTACHMENT) {
      assert c.inlineImages + [] == c.inlineImages;
    } else if n.disposition == Some(INLINE) {
      assert c.attachments + [] == c.attachments;
    } else {
      assert c.attachments + [] == c.attachments;
      assert c.inlineImages + [] == c.inlineImages;
    }
  }

  /**
   * A successful read appends every attachment leaf and every inline leaf,
   * in the order of the leaves, and never touches the partial content.
   */
  lemma {:induction false} FoldCollectsFiles(leaves: seq<MimeNode>, c: Content, env: JavaMail)
    requires Fold(leaves, c, env).Success?
    ensures Fold(leaves, c, env).value.attachments == c.attachments + AttachmentsOf(leaves, env)
    ensures Fold(leaves, c, env).value.inlineImages == c.inlineImages + InlineImagesOf(leaves, env)
    ensures Fold(leaves, c, env).value.partialContent == c.partialContent
    decreases |leaves|
  {
    if leaves == [] {
      assert c.attachments + [] == c.attachments;
      assert c.inlineImages + [] == c.inlineImages;
    } else {
      var c' := Step(leaves[0], c, env).value;
      assert Fold(leaves, c, env) == Fold(leaves[1..], c', env);
      StepCollectsFiles(leaves[0], c, env);
      FoldCollectsFiles(leaves[1..], c', env);
      var a0, a1 := AttachmentOfLeaf(leaves[0], env), AttachmentsOf(leaves[1..], env);
      var i0, i1 := InlineImageOfLeaf(leaves[0], env), InlineImagesOf(leaves[1..], env);
      Associative(c.attachments, a0, a1);
      Associative(c.inlineImages, i0, i1);
    }
  }

  lemma Associative<T>(a: seq<T>, b: seq<T>, c: seq<T>)
    ensures a + b + c == a + (b + c)
  {
  }

  /** A text/plain leaf overwrites the text and nothing else. */
  lemma StepText(l: MimeNode, c: Content, env: JavaMail)
    requires l.Leaf? && !Contains(l.contentType, MULTIPART)
    requires IsMimeType(l.contentType, "text/plain") && l.payload.Chars? && l.payload.text.Some?
    ensures Step(l, c, env) == Success(c.(text := l.payload.text.value))
  {
    assert "text/plain"[5] != "text/html"[5];
  }

  /** A text/html leaf overwrites the html and nothing else. */
  lemma StepHtml(l: MimeNode, c: Content, env: JavaMail)
    requires l.Leaf? && !Contains(l.contentType, MULTIPART)
    requires IsMimeType(l.contentType, "text/html") && l.payload.Chars? && l.payload.text.Some?
    ensures Step(l, c, env) == Success(c.(html := l.payload.text.value))
  {
  }

  /**
   * Reading one more leaf after a successful read: the content it leaves
   * is the step on that leaf from where the read stopped.
   */
  lemma FoldSnoc(leaves: seq<MimeNode>, l: MimeNode, c: Content, env: JavaMail)
    requires Fold(leaves, c, env).Success?
    ensures Fold(leaves + [l], c, env) == Step(l, Fold(leaves, c, env).value, env)
  {
    FoldAppend(leaves, [l], c, env);
    FoldSingle(l, Fold(leaves, c, env).value, env);
  }

  /** Nothing can be read after an exception. */
  lemma FoldStopsAtFailure(leaves: seq<MimeNode>, more: seq<MimeNode>, c: Content, env: JavaMail)
    requires Fold(leaves, c, env).Failure?
    ensures Fold(leaves + more, c, env) == Fold(leaves, c, env)
  {
    FoldAppend(leaves, more, c, env);
  }

  /** The last text/plain leaf read sets the text; the html is what it was. */
  lemma LastTextLeafWins(leaves: seq<MimeNode>, l: MimeNode, c: Content, env: JavaMail)
    requires l.Leaf? && !Contains(l.contentType, MULTIPART)
    requires IsMimeType(l.contentType, "text/plain") && l.payload.Chars? && l.payload.text.Some?
    requires Fold(leaves, c, env).Success?
    ensures Fold(leaves + [l], c, env).Success?
    ensures Fold(leaves + [l], c, env).value.text == l.payload.text.value
    ensures Fold(leaves + [l], c, env).value.html == Fold(leaves, c, env).value.html
  {
    FoldSnoc(leaves, l, c, env);
    StepText(l, Fold(leaves, c, env).value, env);
  }

  /** The last text/html leaf read sets the html; the text is what it was. */
  lemma LastHtmlLeafWins(leaves: seq<MimeNode>, l: MimeNode, c: Content, env: JavaMail)
    requires l.Leaf? && !Contains(l.contentType, MULTIPART)
    requires IsMimeType(l.contentType, "text/html") && l.payload.Chars? && l.payload.text.Some?
    requires Fold(leaves, c, env).Success?
    ensures Fold(leaves + [l], c, env).Success?
    ensures Fold(leaves + [l], c, env).value.html == l.payload.text.value
    ensures Fold(leaves + [l], c, env).value.text == Fold(leaves, c, env).value.text
  {
    FoldSnoc(leaves, l, c, env);
    StepHtml(l, Fold(leaves, c, env).value, env);
  }

  /** A leaf `ReadLeaf` reads as the html body. */
  predicate IsHtmlLeaf(n: MimeNode) {
    n.Leaf? && IsMimeType(n.contentType, "text/html")
  }

  /** A leaf `ReadLeaf` reads as the text body: text/plain, once text/html is ruled out. */
  predicate IsTextLeaf(n: MimeNode) {
    n.Leaf? && !IsMimeType(n.contentType, "text/html") && IsMimeType(n.contentType, "text/plain")
  }

  /** The string of the last readable text/plain leaf of `leaves`, or `t` when there is none. */
  function LastText(leaves: seq<MimeNode>, t: string, env: JavaMail): string
    decreases |leaves|
  {
    if leaves == [] then t
    else
      var l := leaves[|leaves| - 1];
      if IsTextLeaf(l) && ContentString(l.payload, env).Success? then ContentString(l.payload, env).value
      else LastText(leaves[..|leaves| - 1], t, env)
  }

  /** The string of the last readable text/html leaf of `leaves`, or `h` when there is none. */
  function LastHtml(leaves: seq<MimeNode>, h: string, env: JavaMail): string
    decreases |leaves|
  {
    if leaves == [] then h
    else
      var l := leaves[|leaves| - 1];
      if IsHtmlLeaf(l) && ContentString(l.payload, env).Success? then ContentString(l.payload, env).value
      else LastHtml(leaves[..|leaves| - 1], h, env)
  }

  /** One successful step sets the text or the html from a body leaf and otherwise keeps both. */
  lemma StepBodies(n: MimeNode, c: Content, env: JavaMail)
    requires Step(n, c, env).Success?
    ensures IsTextLeaf(n) ==>
      ContentString(n.payload, env).Success? && Step(n, c, env).value.text == ContentString(n.payload, env).value
    ensures !IsTextLeaf(n) ==> Step(n, c, env).value.text == c.text
    ensures IsHtmlLeaf(n) ==>
      ContentString(n.payload, env).Success? && Step(n, c, env).value.html == ContentString(n.payload, env).value
    ensures !IsHtmlLeaf(n) ==> Step(n, c, env).value.html == c.html
  {
  }

  /** A read that succeeds only if every prefix of it succeeds. */
  lemma FoldPrefix(a: seq<MimeNode>, b: seq<MimeNode>, c: Content, env: JavaMail)
    requires Fold(a + b, c, env).Success?
    ensures Fold(a, c, env).Success?
  {
    FoldAppend(a, b, c, env);
  }

  /**
   * After a successful read, the text is that of the last text/plain leaf
   * and the html that of the last text/html leaf, each keeping its
   * starting value when there is no such leaf: later body leaves overwrite
   * earlier ones, wherever they are.
   */
  lemma {:induction false} FoldBodies(leaves: seq<MimeNode>, c: Content, env: JavaMail)
    requires Fold(leaves, c, env).Success?
    ensures Fold(leaves, c, env).value.text == LastText(leaves, c.text, env)
    ensures Fold(leaves, c, env).value.html == LastHtml(leaves, c.html, env)
    decreases |leaves|
  {
    if leaves != [] {
      var init, l := leaves[..|leaves| - 1], leaves[|leaves| - 1];
      assert init + [l] == leaves;
      FoldPrefix(init, [l], c, env);
      FoldBodies(init, c, env);
      FoldSnoc(init, l, c, env);
      StepBodies(l, Fold(init, c, env).value, env);
    }
  }

  /** The same for the walk over a tree of parts, whose leaves are read in document order. */
  lemma WalkBodies(parts: seq<MimeNode>, c: Content, env: JavaMail)
    requires Walk(parts, c, env).Success?
    ensures Walk(parts, c, env).value.text == LastText(Leaves(parts), c.text, env)
    ensures Walk(parts, c, env).value.html == LastHtml(Leaves(parts), c.html, env)
  {
    WalkIsFold(parts, c, env);
    FoldBodies(Leaves(parts), c, env);
  }

  /** A file leaf with a disposition other than attachment or inline leaves the content as it was. */
  lemma OtherLeafDropped(l: MimeNode, c: Content, env: JavaMail)
    requires IsFileLeaf(l) && !Contains(l.contentType, MULTIPART)
    requires l.disposition != Some(ATTACHMENT) && l.disposition != Some(INLINE)
    ensures Walk([l], c, env) == Success(c)
  {
  }

  /** `MessageContent`, whose fields the walk fills in. */
  class MessageContent {
    var text: string
    var html: string
    var attachmentFileList: seq<AttachmentFile>
    var inlineImageFileList: seq<InlineImage>
    var partialContent: Option<seq<bv8>>

    constructor()
      ensures Value() == EMPTY_CONTENT
    {
      text := "";
      html := "";
      attachmentFileList := [];
      inlineImageFileList := [];
      partialContent := None;
    }

    function Value(): Content
      reads this
    {
      Content(text, html, attachmentFileList, inlineImageFileList, partialContent)
    }
  }

  /** The body of the loop in `setMultipartContent` for a part that is not a container. */
  method ReadLeafInto(part: MimeNode, msgContent: MessageContent, env: JavaMail) returns (err: Option<LoadError>)
    requires part.Leaf?
    modifies msgContent
    ensures var r := Step(part, old(msgContent.Value()), env);
      (r.Success? ==> err.None? && msgContent.Value() == r.value) &&
      (r.Failure? ==> err == Some(r.error))
  {
    if Contains(part.contentType, MULTIPART) {
      return Some(ClassCast);
    }
    if IsMimeType(part.contentType, "text/html") || IsMimeType(part.contentType, "text/plain") {
      var s := ContentString(part.payload, env);
      if s.Failure? {
        return Some(s.error);
      }
      if IsMimeType(part.contentType, "text/html") {
        msgContent.html := s.value;
      } else {
        msgContent.text := s.value;
      }
    } else if part.disposition == Some(ATTACHMENT) {
      if part.fileName.None? {
        return Some(NullPointer);
      }
      msgContent.attachmentFileList := msgContent.attachmentFileList + [AttachmentOf(part, env)];
    } else if part.disposition == Some(INLINE) {
      if part.fileName.None? {
        return Some(NullPointer);
      }
      msgContent.inlineImageFileList := msgContent.inlineImageFileList + [InlineImageOf(part, env)];
    }
    return None;
  }

  /** What reading `p` alone does: a nested multipart is walked, a leaf is stepped. */
  function ReadNode(p: MimeNode, c: Content, env: JavaMail): Result<Content, LoadError>
  {
    if p.Container? then Walk(p.children, c, env) else Step(p, c, env)
  }

  /** A failure at `parts[i]` is the failure of the walk over `parts[i..]`. */
  lemma WalkStopsAt(parts: seq<MimeNode>, i: nat, c: Content, e: LoadError, env: JavaMail)
    requires i < |parts| && ReadNode(parts[i], c, env) == Failure(e)
    ensures Walk(parts[i..], c, env) == Failure(e)
  {
    assert parts[i..][0] == parts[i];
  }

  /** After a successful read of `parts[i]` the walk goes on at `parts[i + 1]`. */
  lemma WalkGoesOnAt(parts: seq<MimeNode>, i: nat, c: Content, c': Content, env: JavaMail)
    requires i < |parts| && ReadNode(parts[i], c, env) == Success(c')
    ensures Walk(parts[i..], c, env) == Walk(parts[i + 1..], c', env)
  {
    assert parts[i..][0] == parts[i];
    assert parts[i..][1..] == parts[i + 1..];
  }

  /** After a leaf that reads successfully, the walk goes on with the rest. */
  lemma WalkAfterLeaf(p: MimeNode, rest: seq<MimeNode>, c: Content, c': Content, env: JavaMail)
    requires p.Leaf? && Step(p, c, env) == Success(c')
    ensures Walk([p] + rest, c, env) == Walk(rest, c', env)
  {
    assert ([p] + rest)[0] == p;
    assert ([p] + rest)[1..] == rest;
  }

  /** After a nested multipart that reads successfully, the walk goes on with the rest. */
  lemma WalkAfterContainer(p: MimeNode, rest: seq<MimeNode>, c: Content, c': Content, env: JavaMail)
    requires p.Container? && Walk(p.children, c, env) == Success(c')
    ensures Walk([p] + rest, c, env) == Walk(rest, c', env)
  {
    assert ([p] + rest)[0] == p;
    assert ([p] + rest)[1..] == rest;
  }

  /** `setMultipartContent(multiPart, msgContent)`. */
  method SetMultipartContent(parts: seq<MimeNode>, msgContent: MessageContent, env: JavaMail)
    returns (err: Option<LoadError>)
    modifies msgContent
    ensures var r := Walk(parts, old(msgContent.Value()), env);
      (r.Success? ==> err.None? && msgContent.Value() == r.value) &&
      (r.Failure? ==> err == Some(r.error))
    decreases parts
  {
    var i := 0;
    while i < |parts|
      invariant 0 <= i <= |parts|
      invariant Walk(parts, old(msgContent.Value()), env) == Walk(parts[i..], msgContent.Value(), env)
      decreases |parts| - i
    {
      var part := parts[i];
      ghost var before := msgContent.Value();
      if part.Container? {
        err := SetMultipartContent(part.children, msgContent, env);
      } else {
        err := ReadLeafInto(part, msgContent, env);
      }
      if err.Some? {
        WalkStopsAt(parts, i, before, err.value, env);
        return;
      }
      WalkGoesOnAt(parts, i, before, msgContent.Value(), env);
      i := i + 1;
    }
    return None;
  }

  /** `toMailAddressList(addresses)`: null is the empty list; order is kept. */
  method ToMailAddressList(addresses: Option<seq<InternetAddress>>) returns (list: seq<MailAddress>)
    ensures addresses.None? ==> list == []
    ensures addresses.Some? ==> |list| == |addresses.value|
    ensures addresses.Some? ==>
      forall i :: 0 <= i < |list| ==> list[i] == OfInternetAddress(addresses.value[i])
  {
    list := [];
    if addresses.Some? {
      var arr := addresses.value;
      for i := 0 to |arr|
        invariant |list| == i
        invariant forall j :: 0 <= j < i ==> list[j] == OfInternetAddress(arr[j])
      {
        list := list + [OfInternetAddress(arr[i])];
      }
    }
  }

  const MESSAGE_ID: string := "Message-ID"
  const USER_AGENT: string := "User-Agent"
  const X_MAILER: string := "X-Mailer"

  /** `StringUtils.join(message.getHeader(name), ",")`: null when the header is absent. */
  function JoinedHeader(hs: Headers, name: string): Option<string> {
    if name in hs then Some(Join(hs[name], ",")) else None
  }

  class MessageLoader {
    const message: MimeNode
    const mail: JavaMail
    var isDeleted: bool
    var contentCache: Option<Content>
    /** How many times the content has been walked. */
    ghost var walks: nat

    /** The cache, once filled, holds what a walk of the message gives. */
    ghost predicate Valid()
      reads this
    {
      contentCache.Some? ==> Extract(message, mail) == Success(contentCache.value)
    }

    /** `MessageLoader(message)`: not marked for deletion. */
    constructor(message: MimeNode, mail: JavaMail)
      ensures Valid() && this.message == message && this.mail == mail
      ensures !isDeleted && contentCache.None? && walks == 0
    {
      this.message := message;
      this.mail := mail;
      isDeleted := false;
      contentCache := None;
      walks := 0;
    }

    /** `MessageLoader(message, isDeleted)`. */
    constructor WithDeleted(message: MimeNode, mail: JavaMail, isDeleted: bool)
      ensures Valid() && this.message == message && this.mail == mail
      ensures this.isDeleted == isDeleted && contentCache.None? && walks == 0
    {
      this.message := message;
      this.mail := mail;
      this.isDeleted := isDeleted;
      contentCache := None;
      walks := 0;
    }

    method IsDeleted() returns (r: bool)
      ensures r == isDeleted
    {
      r := isDeleted;
    }

    /** `deleted(isDeleted)`. */
    method Deleted(b: bool)
      modifies this`isDeleted
      ensures isDeleted == b
    {
      isDeleted := b;
    }

    /**
     * `getContent()`: walks the message on the first successful call and
     * serves every later call from the cache; an exception leaves the cache
     * empty.
     */
    method GetContent() returns (r: Result<Content, LoadError>)
      requires Valid()
      modifies this`contentCache, this`walks
      ensures Valid()
      ensures r == Extract(message, mail)
      ensures old(contentCache).Some? ==> contentCache == old(contentCache) && walks == old(walks)
      ensures old(contentCache).None? ==> walks == old(walks) + 1
      ensures old(contentCache).None? ==> contentCache == (if r.Success? then Some(r.value) else None)
    {
      if contentCache.None? {
        walks := walks + 1;
        var msgContent := new MessageContent();
        match message {
          case Container(_, _, children) =>
            var err := SetMultipartContent(children, msgContent, mail);
            if err.Some? {
              return Failure(err.value);
            }
          case Leaf(_, _, _, _, _, _, payload) =>
            if payload.Bytes? {
              msgContent.partialContent := Some(payload.bytes);
            } else {
              var s := ContentString(payload, mail);
              if s.Failure? {
                return Failure(s.error);
              }
              msgContent.text := s.value;
            }
        }
        contentCache := Some(msgContent.Value());
      }
      return Success(contentCache.value);
    }

    /** `getText()`. */
    method GetText() returns (r: Result<string, LoadError>)
      requires Valid()
      modifies this`contentCache, this`walks
      ensures Valid()
      ensures var e := Extract(message, mail);
        r == if e.Success? then Success(e.value.text) else Failure(e.error)
    {
      var c := GetContent();
      r := if c.Success? then Success(c.value.text) else Failure(c.error);
    }

    /** `getHtml()`. */
    method GetHtml() returns (r: Result<string, LoadError>)
      requires Valid()
      modifies this`contentCache, this`walks
      ensures Valid()
      ensures var e := Extract(message, mail);
        r == if e.Success? then Success(e.value.html) else Failure(e.error)
    {
      var c := GetContent();
      r := if c.Success? then Success(c.value.html) else Failure(c.error);
    }

    /** `getAttachmentFileList()`. */
    method GetAttachmentFileList() returns (r: Result<seq<AttachmentFile>, LoadError>)
      requires Valid()
      modifies this`contentCache, this`walks
      ensures Valid()
      ensures var e := Extract(message, mail);
        r == if e.Success? then Success(e.value.attachments) else Failure(e.error)
    {
      var c := GetContent();
      r := if c.Success? then Success(c.value.attachments) else Failure(c.error);
    }

    /** `getInlineImageFileList()`. */
    method GetInlineImageFileList() returns (r: Result<seq<InlineImage>, LoadError>)
      requires Valid()
      modifies this`contentCache, this`walks
      ensures Valid()
      ensures var e := Extract(message, mail);
        r == if e.Success? then Success(e.value.inlineImages) else Failure(e.error)
    {
      var c := GetContent();
      r := if c.Success? then Success(c.value.inlineImages) else Failure(c.error);
    }

    /** `getPartialContent()`: the raw bytes of a message whose content is a byte stream, else null. */
    method GetPartialContent() returns (r: Result<Option<seq<bv8>>, LoadError>)
      requires Valid()
      modifies this`contentCache, this`walks
      ensures Valid()
      ensures var e := Extract(message, mail);
        r == if e.Success? then Success(e.value.partialContent) else Failure(e.error)
    {
      var c := GetContent();
      r := if c.Success? then Success(c.value.partialContent) else Failure(c.error);
    }

    /** `getMessageId()`: the values joined with commas; empty when there is no such header. */
    function GetMessageId(): (r: string)
    {
      JoinedHeader(message.headers, MESSAGE_ID).GetOr("")
    }

    /** `getMessageUserAgent()`: `User-Agent`, or `X-Mailer` when that is blank; never null. */
    function GetMessageUserAgent(): (r: string)
    {
      var mua := JoinedHeader(message.headers, USER_AGENT);
      if IsBlank(mua) then JoinedHeader(message.headers, X_MAILER).GetOr("") else mua.value
    }

    /** `isPartial()`. */
    predicate IsPartial() {
      Contains(ContentTypeOf(message), MESSAGE_PARTIAL)
    }
  }

  /** The message id is empty without the header and is the single value when there is one. */
  lemma MessageIdValues(loader: MessageLoader)
    ensures MESSAGE_ID !in loader.message.headers ==> loader.GetMessageId() == ""
    ensures MESSAGE_ID in loader.message.headers && |loader.message.headers[MESSAGE_ID]| == 1 ==>
      loader.GetMessageId() == loader.message.headers[MESSAGE_ID][0]
    ensures MESSAGE_ID in loader.message.headers && |loader.message.headers[MESSAGE_ID]| >= 2 ==>
      var vs := loader.message.headers[MESSAGE_ID];
      loader.GetMessageId() == vs[0] + "," + Join(vs[1..], ",")
        && loader.GetMessageId() == Join(vs[..|vs| - 1], ",") + "," + vs[|vs| - 1]
  {
    if MESSAGE_ID in loader.message.headers && |loader.message.headers[MESSAGE_ID]| >= 2 {
      var vs := loader.message.headers[MESSAGE_ID];
      JoinSnoc(vs[..|vs| - 1], vs[|vs| - 1], ",");
      assert vs[..|vs| - 1] + [vs[|vs| - 1]] == vs;
    }
  }

  /** The user agent is the `User-Agent` value unless that is blank or absent, then `X-Mailer`'s. */
  lemma UserAgentFallback(loader: MessageLoader)
    ensures var hs := loader.message.headers;
      var ua := JoinedHeader(hs, USER_AGENT);
      loader.GetMessageUserAgent() ==
        if IsNotBlank(ua) then ua.value
        else if X_MAILER in hs then Join(hs[X_MAILER], ",") else ""
  {
  }

  /** `isPartial()` holds exactly when `message/partial` occurs somewhere in the content type. */
  lemma IsPartialIff(loader: MessageLoader)
    ensures loader.IsPartial() ==>
      var j := IndexOf(ContentTypeOf(loader.message), MESSAGE_PARTIAL);
      IsPrefix(MESSAGE_PARTIAL, ContentTypeOf(loader.message)[j..])
    ensures forall j ::
      (0 <= j <= |ContentTypeOf(loader.message)| &&
       IsPrefix(MESSAGE_PARTIAL, ContentTypeOf(loader.message)[j..])) ==> loader.IsPartial()
  {
    forall j | 0 <= j <= |ContentTypeOf(loader.message)| &&
      IsPrefix(MESSAGE_PARTIAL, ContentTypeOf(loader.message)[j..])
    {
      ContainsAt(ContentTypeOf(loader.message), MESSAGE_PARTIAL, j);
    }
  }
}
