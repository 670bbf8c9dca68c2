# quick-javamail, modelled in Dafny

quick-javamail is a thin fluent layer over JavaMail. `MailSender` collects
addresses, a subject, a text and an html body, attachments and inline images,
and builds a MIME tree whose shape depends on which of those are present.
`MessageLoader` walks a received message's MIME tree and sorts its leaves
into text, html, attachments, inline images and the partial content of a
`message/partial` fragment. `MailReceiver` opens a folder and hands every
message to a callback, flagging the ones it leaves marked for deletion.
`MailProperties` with its SMTP, IMAP and POP3 subclasses is the table of
JavaMail connection settings, whose `ssl()` renames every key from the plain
protocol to the SSL one. `MailUtil`, `MailAddress`, `AttachmentFile` and
`InlineImageFile` are the small helpers and values these share.

The model has one module per part of the library:

- `Wrappers`: `Option` (Java `null` is `None`) and `Result`.
- `JavaStrings`: the `String` and `StringUtils` operations the code relies on
  (`isBlank` with `Character.isWhitespace`, `trim`, `indexOf`, literal
  `replace`, `startsWith`, `join`), defined explicitly.
- `Util`: `MailUtil.toValidFileName`, `isInvalidFileNameChar` (the
  operating system is a parameter) and `decodeText`.
- `Mime`: the MIME tree as a datatype (`Leaf` and `Container`), content types
  and `isMimeType`, and the foreign JavaMail codecs (`MimeUtility.encodeText`,
  `decodeText`, a content's string form) as a `JavaMail` value of functions
  passed in.
- `Address`, `Attachments`: `MailAddress`, `AttachmentFile` and
  `InlineImageFile` as datatypes.
- `Properties`: the property table as a map, the three protocol families, and
  the class `MailProperties` whose methods update it.
- `Sender`: the class `MailSender` with its builder setters, the part
  factories, and `setContent` as the function `Compose` from the sender's
  fields to a MIME tree, with the shape of that tree proved against the
  decision table of the source.
- `Loader`: extraction as the recursive function `Walk`, the imperative
  `setMultipartContent` proved against it, and the class `MessageLoader`
  with its content cache.
- `RoundTrip`: reading a composed message back gives what was composed.
- `Receiver`: the class `MailReceiver` and `execute()` as a trace of store,
  folder and flag events.

## Model

| member | source | states |
|---|---|---|
| JavaStrings.IndexOf | src/main/java/com/szmslab/quickjavamail/utils/MailUtil.java:389 | `indexOf` returns -1 exactly when the pattern does not occur, else the first position where it starts |
| JavaStrings.ReplaceAbsent | src/main/java/com/szmslab/quickjavamail/utils/MailProperties.java:205 | a literal replace-all leaves a string without the token unchanged |
| JavaStrings.ReplaceSelf | src/main/java/com/szmslab/quickjavamail/utils/MailProperties.java:205 | replacing a token by itself changes nothing |
| JavaStrings.TrimFacts | src/main/java/com/szmslab/quickjavamail/utils/MailUtil.java:93 | `trim` drops exactly the leading and trailing characters up to U+0020 (every dropped character is one) and keeps the middle |
| Util.InvalidCharsNested | src/main/java/com/szmslab/quickjavamail/utils/MailUtil.java:109-124 | every character invalid off Windows (NUL, `/`) is invalid on Windows too, and every invalid character is ASCII |
| Util.ToValidFileName | src/main/java/com/szmslab/quickjavamail/utils/MailUtil.java:81-100 | the loop builds the name `ValidFileName` describes: the default for a blank source, each invalid character replaced, the result trimmed, and the default again when that is blank |
| Util.SanitizedPointwise | src/main/java/com/szmslab/quickjavamail/utils/MailUtil.java:85-92 | with a one-character replacement the built name has the source's length and each position holds the source character or, where it is invalid, the replacement |
| Util.SanitizedValid | src/main/java/com/szmslab/quickjavamail/utils/MailUtil.java:85-92 | with a valid replacement the built name holds no invalid character |
| Util.ValidFileNameIsValid | src/main/java/com/szmslab/quickjavamail/utils/MailUtil.java:81-100 | with a valid replacement and default, the result holds no invalid character, and any result other than the default is a non-blank name |
| Util.TrimKeepsValid | src/main/java/com/szmslab/quickjavamail/utils/MailUtil.java:93 | trimming a valid name keeps it valid |
| Util.ValidFileNameKeepsValid | src/main/java/com/szmslab/quickjavamail/utils/MailUtil.java:81-100 | a name already valid, non-blank and trimmed comes back unchanged |
| Util.SanitizedIdentity | src/main/java/com/szmslab/quickjavamail/utils/MailUtil.java:85-92 | a name without invalid characters is copied unchanged |
| Util.DecodeText | src/main/java/com/szmslab/quickjavamail/utils/MailUtil.java:385-397 | null gives `""`; text without `=?` goes to the decoder whole; otherwise the text before the first `=?` is kept verbatim and only the rest, with `?==?` separated, is decoded |
| Util.SeparateWordsAbsent | src/main/java/com/szmslab/quickjavamail/utils/MailUtil.java:392-395 | text without `?==?` is passed to the decoder unchanged |
| Util.SeparateJoint | src/main/java/com/szmslab/quickjavamail/utils/MailUtil.java:392-395 | one joint `?==?` between two encoded words becomes `?= =?` |
| Util.DecodeAdjacentWords | src/main/java/com/szmslab/quickjavamail/utils/MailUtil.java:385-397 | two adjacent encoded words after a plain prefix are decoded as one whitespace-separated pair, the prefix kept verbatim |
| Mime.BaseTypeWithParameters | src/main/java/com/szmslab/quickjavamail/receive/MessageLoader.java:337-339 | `isMimeType` compares only the base type: parameters after `;` are ignored |
| Address.OfAddress | src/main/java/com/szmslab/quickjavamail/utils/MailAddress.java:39-41 | the one-argument constructor keeps the address and leaves the personal name null |
| Address.ToInternetAddress | src/main/java/com/szmslab/quickjavamail/utils/MailAddress.java:76-82 | a blank personal name gives the address-only form; otherwise address, personal name and charset |
| Address.ToInternetAddressDefault | src/main/java/com/szmslab/quickjavamail/utils/MailAddress.java:63-65 | the no-argument overload passes a null charset |
| Address.OfInternetAddress | src/main/java/com/szmslab/quickjavamail/receive/MessageLoader.java:292-294 | a received address keeps its address and its personal name, null for the address-only form |
| Address.InternetAddressRoundTrip | src/main/java/com/szmslab/quickjavamail/utils/MailAddress.java:76-82 | sending and reading back an address gives it back, with a blank personal name read back as null |
| Address.ToString | src/main/java/com/szmslab/quickjavamail/utils/MailAddress.java:106-114 | a blank personal name gives exactly the address, otherwise `personal<address>` with no space |
| Address.ToStringAddressRecoverable | src/main/java/com/szmslab/quickjavamail/utils/MailAddress.java:106-114 | the address can be read back from the text form when the personal name holds no `<` |
| Attachments.ToString | src/main/java/com/szmslab/quickjavamail/utils/AttachmentFile.java:62-65 | an attachment's text form is its file name; an inline image's is the file name followed by the content id |
| Properties.DefaultProtocol | src/main/java/com/szmslab/quickjavamail/send/SmtpProperties.java:24-28 | the default protocols are `smtp`, `imap` and `pop3`, four letters each |
| Properties.SslProtocol | src/main/java/com/szmslab/quickjavamail/receive/ImapProperties.java:30-32 | each SSL protocol is the default one with `s` appended (`smtps`, `imaps`, `pop3s`) |
| Properties.SmtpPrefixOnlyForSmtp | src/main/java/com/szmslab/quickjavamail/utils/MailProperties.java:147-149 | only the SMTP family's protocols start with `smtp`, so only SMTP ever sets an `auth` key |
| Properties.PutString | src/main/java/com/szmslab/quickjavamail/utils/MailProperties.java:246-250 | a blank value leaves the table alone; otherwise the key gets the value and every other entry is kept |
| Properties.PutObject | src/main/java/com/szmslab/quickjavamail/utils/MailProperties.java:271-275 | a null value leaves the table alone; otherwise the key gets the value and every other entry is kept |
| Properties.InitialTimeouts | src/main/java/com/szmslab/quickjavamail/utils/MailProperties.java:47-51 | a new instance has both timeouts at 60000 under its default protocol; SMTP sets `mail.transport.protocol` and `mail.transport.protocol.rfc822` to `smtp`, the other families set neither |
| Properties.MigrateKeys | src/main/java/com/szmslab/quickjavamail/utils/MailProperties.java:199-209 | the loop builds a table whose keys are the renamed old keys, each value taken from a key renamed onto it |
| Properties.MigrationKeys | src/main/java/com/szmslab/quickjavamail/utils/MailProperties.java:199-209 | the keys after renaming are exactly the images of the old keys |
| Properties.MigrationKeepsValue | src/main/java/com/szmslab/quickjavamail/utils/MailProperties.java:202-207 | a key no other key collides with keeps its value under its new name |
| Properties.TokenFreeKeyKept | src/main/java/com/szmslab/quickjavamail/utils/MailProperties.java:202-207 | a key without the old token keeps its name and value |
| Properties.QualifiedKeyRenamed | src/main/java/com/szmslab/quickjavamail/utils/MailProperties.java:205 | `mail.<p>.<name>` becomes `mail.<ps>.<name>` |
| Properties.NoResidualQualifiedKeys | src/main/java/com/szmslab/quickjavamail/utils/MailProperties.java:199-209 | after renaming no key is left under `mail.<p>.` |
| Properties.SecondSslKeepsTable | src/main/java/com/szmslab/quickjavamail/utils/MailProperties.java:200-209 | a second `ssl()` renames nothing |
| Properties.SslSettingsFacts | src/main/java/com/szmslab/quickjavamail/utils/MailProperties.java:211-220 | `ssl.enable` and `socketFactory.fallback` are set, and the socket factory is the trusting one for the configured host or the JDK class name |
| Properties.SslSettingsFrame | src/main/java/com/szmslab/quickjavamail/utils/MailProperties.java:211-220 | `socketFactory.port` copies a configured port and is left as it was when no port is set; `socketFactory.class` is left alone for a trusted host and `socketFactory` otherwise; every key outside the SSL keys is left alone |
| Properties.SmtpSslTransportKeys | src/main/java/com/szmslab/quickjavamail/send/SmtpProperties.java:34-49 | after `ssl()` an SMTP table names `smtps` as its transport protocol under both transport keys |
| Properties.TransportKeysKept | src/main/java/com/szmslab/quickjavamail/utils/MailProperties.java:202-207 | the renaming from `smtp` to `smtps` keeps both transport entries |
| Properties.MailProperties.constructor | src/main/java/com/szmslab/quickjavamail/utils/MailProperties.java:47-51 | the default protocol, the initial table, no credential |
| Properties.MailProperties.SetString | src/main/java/com/szmslab/quickjavamail/utils/MailProperties.java:246-250 | the table becomes `PutString` of the old one; nothing else changes |
| Properties.MailProperties.SetObject | src/main/java/com/szmslab/quickjavamail/utils/MailProperties.java:271-275 | the table becomes `PutObject` of the old one; nothing else changes |
| Properties.MailProperties.TransportProtocol | src/main/java/com/szmslab/quickjavamail/send/SmtpProperties.java:46-49 | both transport keys get the protocol |
| Properties.MailProperties.GetDefaultProtocol | src/main/java/com/szmslab/quickjavamail/send/SmtpProperties.java:24-28 | returns the family's default protocol; SMTP also writes the transport keys |
| Properties.MailProperties.GetSslProtocol | src/main/java/com/szmslab/quickjavamail/send/SmtpProperties.java:34-38 | returns the family's SSL protocol; SMTP also writes the transport keys |
| Properties.MailProperties.Host | src/main/java/com/szmslab/quickjavamail/utils/MailProperties.java:87-91 | sets `mail.host` and `mail.<protocol>.host` |
| Properties.MailProperties.Port | src/main/java/com/szmslab/quickjavamail/utils/MailProperties.java:100-105 | sets only `mail.<protocol>.port` |
| Properties.MailProperties.ConnectionTimeout | src/main/java/com/szmslab/quickjavamail/utils/MailProperties.java:114-117 | sets only `mail.<protocol>.connectiontimeout` |
| Properties.MailProperties.Timeout | src/main/java/com/szmslab/quickjavamail/utils/MailProperties.java:126-129 | sets only `mail.<protocol>.timeout` |
| Properties.MailProperties.Authenticate | src/main/java/com/szmslab/quickjavamail/utils/MailProperties.java:140-153 | a no-op unless both user and password are non-blank; then the credential is stored and, for a protocol starting with `smtp`, `auth=true` |
| Properties.MailProperties.Starttls | src/main/java/com/szmslab/quickjavamail/utils/MailProperties.java:160-178 | sets `starttls.enable=true` and, for a trusted host, `ssl.trust` to the host value when there is one |
| Properties.MailProperties.Ssl | src/main/java/com/szmslab/quickjavamail/utils/MailProperties.java:186-222 | the protocol becomes the SSL one, the table is the renamed table after the SSL protocol's transport keys, then the SSL keys are set |
| Sender.SetHeaderToPart | src/main/java/com/szmslab/quickjavamail/send/MailSender.java:612-617 | each registered header replaces that header's values with its single value; the part's other headers and everything else are kept |
| Sender.TextContentTypeIsPlain | src/main/java/com/szmslab/quickjavamail/send/MailSender.java:432-437 | the text part's content type is text/plain and not text/html |
| Sender.HtmlContentTypeIsHtml | src/main/java/com/szmslab/quickjavamail/send/MailSender.java:445-450 | the html part's content type is text/html and not text/plain |
| Sender.CreateTextPart | src/main/java/com/szmslab/quickjavamail/send/MailSender.java:432-437 | a text/plain leaf holding the text, with the registered headers and no disposition or file name |
| Sender.CreateHtmlPart | src/main/java/com/szmslab/quickjavamail/send/MailSender.java:445-450 | a text/html leaf holding the html, with the registered headers and no disposition or file name |
| Sender.CreateAttachmentPart | src/main/java/com/szmslab/quickjavamail/send/MailSender.java:461-467 | a leaf with the file's data source, the encoded file name, disposition `attachment` and no headers |
| Sender.CreateImagePart | src/main/java/com/szmslab/quickjavamail/send/MailSender.java:478-485 | a leaf with the file's data source, the encoded file name, the content id, disposition `inline` and no headers |
| Sender.AttachmentParts | src/main/java/com/szmslab/quickjavamail/send/MailSender.java:510-512 | one attachment part per file, in list order |
| Sender.ImageParts | src/main/java/com/szmslab/quickjavamail/send/MailSender.java:537-539 | one inline part per image, in list order |
| Sender.ComposeFollowsTable | src/main/java/com/szmslab/quickjavamail/send/MailSender.java:495-603 | the tree's shape is the decision table: plain text; mixed of text and attachments; alternative of text and html or related; mixed of that and attachments; never an inline image without html |
| Sender.AlternativeShape | src/main/java/com/szmslab/quickjavamail/send/MailSender.java:516-547 | an alternative container's first child is text; its second is html alone, or related of html and the inline images in order |
| Sender.MixedTextShape | src/main/java/com/szmslab/quickjavamail/send/MailSender.java:502-513 | with blank html and attachments: mixed of the text then one attachment leaf per file |
| Sender.MixedAlternativeShape | src/main/java/com/szmslab/quickjavamail/send/MailSender.java:549-598 | with html and attachments: mixed of the alternative subtree then the attachment leaves |
| Sender.ComposePlacesHeaders | src/main/java/com/szmslab/quickjavamail/send/MailSender.java:602 | the message carries the registered headers, and inside it only text and html leaves do |
| Sender.BodyPlaced | src/main/java/com/szmslab/quickjavamail/send/MailSender.java:435-485 | inside the body, headers sit on every text and html leaf and on no file leaf or container |
| Sender.PresentKeepsOrder | src/main/java/com/szmslab/quickjavamail/send/MailSender.java:223-352 | the non-null arguments of two argument lists are those of each, in order |
| Sender.PresentCounts | src/main/java/com/szmslab/quickjavamail/send/MailSender.java:223-352 | nulls are skipped, nothing else is, and exactly the given values are kept |
| Sender.AppendPresent | src/main/java/com/szmslab/quickjavamail/send/MailSender.java:223-230 | the loop appends the non-null arguments in argument order |
| Sender.MailSender.constructor | src/main/java/com/szmslab/quickjavamail/send/MailSender.java:126-129 | charset ISO-2022-JP, `Content-Transfer-Encoding: 7bit`, no debug, the default session, everything else empty |
| Sender.MailSender.Debug | src/main/java/com/szmslab/quickjavamail/send/MailSender.java:138-141 | sets the debug flag |
| Sender.MailSender.UseDefaultSession | src/main/java/com/szmslab/quickjavamail/send/MailSender.java:150-153 | sets the session choice |
| Sender.MailSender.Header | src/main/java/com/szmslab/quickjavamail/send/MailSender.java:164-169 | stores the pair only when both are non-blank; a later value overwrites |
| Sender.MailSender.Charset | src/main/java/com/szmslab/quickjavamail/send/MailSender.java:178-183 | a blank charset is ignored |
| Sender.MailSender.CharsetWithEncoding | src/main/java/com/szmslab/quickjavamail/send/MailSender.java:194-200 | a blank charset changes nothing; otherwise the charset and, when non-blank, the transfer-encoding header |
| Sender.MailSender.From | src/main/java/com/szmslab/quickjavamail/send/MailSender.java:209-214 | a null address is ignored |
| Sender.MailSender.ReplyTo | src/main/java/com/szmslab/quickjavamail/send/MailSender.java:223-230 | appends the non-null addresses in order |
| Sender.MailSender.To | src/main/java/com/szmslab/quickjavamail/send/MailSender.java:239-246 | appends the non-null addresses in order |
| Sender.MailSender.Cc | src/main/java/com/szmslab/quickjavamail/send/MailSender.java:255-262 | appends the non-null addresses in order |
| Sender.MailSender.Bcc | src/main/java/com/szmslab/quickjavamail/send/MailSender.java:271-278 | appends the non-null addresses in order |
| Sender.MailSender.Subject | src/main/java/com/szmslab/quickjavamail/send/MailSender.java:287-292 | a blank subject is ignored |
| Sender.MailSender.Text | src/main/java/com/szmslab/quickjavamail/send/MailSender.java:301-306 | a blank text is ignored |
| Sender.MailSender.Html | src/main/java/com/szmslab/quickjavamail/send/MailSender.java:315-320 | a blank html is ignored |
| Sender.MailSender.AttachmentFiles | src/main/java/com/szmslab/quickjavamail/send/MailSender.java:329-336 | appends the non-null files in order |
| Sender.MailSender.InlineImageFiles | src/main/java/com/szmslab/quickjavamail/send/MailSender.java:345-352 | appends the non-null images in order |
| Sender.MailSender.AddAttachmentParts | src/main/java/com/szmslab/quickjavamail/send/MailSender.java:510-512 | the loop appends one attachment part per file, in order |
| Sender.MailSender.AddImageParts | src/main/java/com/szmslab/quickjavamail/send/MailSender.java:537-539 | the loop appends one inline part per image, in order |
| Sender.MailSender.SetContent | src/main/java/com/szmslab/quickjavamail/send/MailSender.java:495-603 | the message built is `Compose` of the sender's fields |
| Loader.ContentString | src/main/java/com/szmslab/quickjavamail/receive/MessageLoader.java:315 | `toString()` of a string content is the string, and of a null content a NullPointerException |
| Loader.ContainerIsMultipart | src/main/java/com/szmslab/quickjavamail/receive/MessageLoader.java:335-336 | a multipart container's content type contains `multipart` |
| Loader.ExtractStream | src/main/java/com/szmslab/quickjavamail/receive/MessageLoader.java:312-313 | a byte-stream root sets only the partial content; text and html stay `""`, the lists empty |
| Loader.ExtractString | src/main/java/com/szmslab/quickjavamail/receive/MessageLoader.java:314-315 | any other single-part root puts its string form in `text`, html stays `""` |
| Loader.ExtractNull | src/main/java/com/szmslab/quickjavamail/receive/MessageLoader.java:314-315 | a null single-part content fails with a NullPointerException |
| Loader.WalkIsFold | src/main/java/com/szmslab/quickjavamail/receive/MessageLoader.java:332-357 | the recursive walk is the in-order fold over the tree's leaves at any depth |
| Loader.FoldCollectsFiles | src/main/java/com/szmslab/quickjavamail/receive/MessageLoader.java:341-355 | the attachments and inline images found are those of the leaves, appended in order; the partial content is untouched |
| Loader.StepCollectsFiles | src/main/java/com/szmslab/quickjavamail/receive/MessageLoader.java:341-355 | one leaf adds at most its own attachment or inline image |
| Loader.FoldStopsAtFailure | src/main/java/com/szmslab/quickjavamail/receive/MessageLoader.java:332-357 | an exception ends the walk: later parts change nothing |
| Loader.LastTextLeafWins | src/main/java/com/szmslab/quickjavamail/receive/MessageLoader.java:339-340 | a later text/plain leaf overwrites `text` and leaves `html` |
| Loader.LastHtmlLeafWins | src/main/java/com/szmslab/quickjavamail/receive/MessageLoader.java:337-338 | a later text/html leaf overwrites `html` and leaves `text` |
| Loader.StepBodies | src/main/java/com/szmslab/quickjavamail/receive/MessageLoader.java:337-340 | a leaf read sets `text` from a text/plain leaf and `html` from a text/html leaf, and keeps each otherwise |
| Loader.FoldBodies | src/main/java/com/szmslab/quickjavamail/receive/MessageLoader.java:332-357 | after a successful read, `text` is the last text/plain leaf's string and `html` the last text/html leaf's, or the starting values |
| Loader.WalkBodies | src/main/java/com/szmslab/quickjavamail/receive/MessageLoader.java:332-357 | the same for the recursive walk over nested multiparts |
| JavaStrings.JoinSnoc | src/main/java/com/szmslab/quickjavamail/receive/MessageLoader.java:113-115 | joining one more value appends the separator and that value |
| Loader.OtherLeafDropped | src/main/java/com/szmslab/quickjavamail/receive/MessageLoader.java:341-355 | a leaf that is neither text, html, attachment nor inline is dropped |
| Loader.MessageContent.constructor | src/main/java/com/szmslab/quickjavamail/receive/MessageLoader.java:364-391 | empty text and html, empty lists, no partial content |
| Loader.ReadLeafInto | src/main/java/com/szmslab/quickjavamail/receive/MessageLoader.java:337-355 | one leaf updates the buckets as `Step` says, or reports its exception |
| Loader.SetMultipartContent | src/main/java/com/szmslab/quickjavamail/receive/MessageLoader.java:332-357 | the loop and recursion leave the buckets as `Walk` says, or stop at the first exception |
| Loader.ToMailAddressList | src/main/java/com/szmslab/quickjavamail/receive/MessageLoader.java:289-297 | null gives an empty list; otherwise one address per element, in order |
| Loader.MessageLoader.constructor | src/main/java/com/szmslab/quickjavamail/receive/MessageLoader.java:61-64 | not deleted, nothing cached |
| Loader.MessageLoader.WithDeleted | src/main/java/com/szmslab/quickjavamail/receive/MessageLoader.java:74-77 | the given delete flag, nothing cached |
| Loader.MessageLoader.IsDeleted | src/main/java/com/szmslab/quickjavamail/receive/MessageLoader.java:84-86 | returns the delete flag |
| Loader.MessageLoader.Deleted | src/main/java/com/szmslab/quickjavamail/receive/MessageLoader.java:94-96 | sets the delete flag |
| Loader.MessageLoader.GetContent | src/main/java/com/szmslab/quickjavamail/receive/MessageLoader.java:306-320 | returns the extracted content; once a walk succeeds its result is cached and the tree is not walked again, while a failed walk caches nothing and the next call walks again |
| Loader.MessageLoader.GetText | src/main/java/com/szmslab/quickjavamail/receive/MessageLoader.java:224-226 | the extracted text, or the exception |
| Loader.MessageLoader.GetHtml | src/main/java/com/szmslab/quickjavamail/receive/MessageLoader.java:235-237 | the extracted html, or the exception |
| Loader.MessageLoader.GetAttachmentFileList | src/main/java/com/szmslab/quickjavamail/receive/MessageLoader.java:246-248 | the extracted attachments, or the exception |
| Loader.MessageLoader.GetInlineImageFileList | src/main/java/com/szmslab/quickjavamail/receive/MessageLoader.java:257-259 | the extracted inline images, or the exception |
| Loader.MessageLoader.GetPartialContent | src/main/java/com/szmslab/quickjavamail/receive/MessageLoader.java:278-280 | the extracted partial content, or the exception |
| Loader.MessageIdValues | src/main/java/com/szmslab/quickjavamail/receive/MessageLoader.java:113-115 | no Message-ID gives `""`, one value gives that value, several give them joined with `,` in order |
| Loader.UserAgentFallback | src/main/java/com/szmslab/quickjavamail/receive/MessageLoader.java:123-129 | User-Agent unless blank, then X-Mailer, never null |
| Loader.IsPartialIff | src/main/java/com/szmslab/quickjavamail/receive/MessageLoader.java:267-269 | partial exactly when the content type contains `message/partial` |
| RoundTrip.WalkAttachments | src/main/java/com/szmslab/quickjavamail/receive/MessageLoader.java:341-348 | reading the attachment parts back appends the files in order |
| RoundTrip.WalkImages | src/main/java/com/szmslab/quickjavamail/receive/MessageLoader.java:349-355 | reading the inline parts back appends the images in order, content ids kept |
| RoundTrip.WalkAlternative | src/main/java/com/szmslab/quickjavamail/receive/MessageLoader.java:332-357 | reading an alternative subtree back gives its text, html and inline images |
| RoundTrip.ExtractIgnoresHeaders | src/main/java/com/szmslab/quickjavamail/send/MailSender.java:602 | registered headers other than Content-Type, Content-Disposition and Content-ID do not change what is read back |
| RoundTrip.ReadBackComposed | src/main/java/com/szmslab/quickjavamail/send/MailSender.java:495-603 | reading a composed message back gives its text, html (`""` when blank), attachment names and data sources as sent, and inline images in order |
| RoundTrip.TextAttachmentReadAsText | src/main/java/com/szmslab/quickjavamail/receive/MessageLoader.java:337-341 | a text/plain attachment is read back as the body text, not as an attachment |
| Receiver.ModeOf | src/main/java/com/szmslab/quickjavamail/receive/MailReceiver.java:132 | the folder opens READ_ONLY exactly when readonly |
| Receiver.FlagOf | src/main/java/com/szmslab/quickjavamail/receive/MailReceiver.java:138-140 | a message is flagged exactly when the folder is writable and the loader's flag is on |
| Receiver.Visited | src/main/java/com/szmslab/quickjavamail/receive/MailReceiver.java:134-144 | the callback sees the messages up to and including the first that does not answer true |
| Receiver.IterateFlags | src/main/java/com/szmslab/quickjavamail/receive/MailReceiver.java:134-144 | message k is flagged exactly when it was visited, its callback did not throw, the folder is writable and its loader's flag is on |
| Receiver.IterateThrows | src/main/java/com/szmslab/quickjavamail/receive/MailReceiver.java:134-144 | the loop ends by an exception exactly when the last visited callback threw |
| Receiver.SessionFlags | src/main/java/com/szmslab/quickjavamail/receive/MailReceiver.java:119-161 | flags are set only once the folder is open, by the loop's rule |
| Receiver.ReadonlyChangesNothing | src/main/java/com/szmslab/quickjavamail/receive/MailReceiver.java:132-140 | in readonly mode the folder opens READ_ONLY, no message is flagged, and the close does not expunge |
| Receiver.ReadWriteDeletesByDefault | src/main/java/com/szmslab/quickjavamail/receive/MailReceiver.java:136-140 | in read-write mode a callback that answers true and leaves the flag alone has every message deleted |
| Receiver.ClosesOnEveryPath | src/main/java/com/szmslab/quickjavamail/receive/MailReceiver.java:145-159 | every path that obtained a store closes it last, and an opened folder is closed just before with expunge `!readonly` |
| Receiver.OpenFailureLeavesStoreOpen | src/main/java/com/szmslab/quickjavamail/receive/MailReceiver.java:145-159 | as written, a failed `open` leaves the store connected; the corrected session closes it |
| Receiver.MailReceiver.constructor | src/main/java/com/szmslab/quickjavamail/receive/MailReceiver.java:30-60 | folder INBOX, readonly, no debug, the default session |
| Receiver.MailReceiver.Debug | src/main/java/com/szmslab/quickjavamail/receive/MailReceiver.java:69-72 | sets the debug flag |
| Receiver.MailReceiver.UseDefaultSession | src/main/java/com/szmslab/quickjavamail/receive/MailReceiver.java:81-84 | sets the session choice |
| Receiver.MailReceiver.FolderName | src/main/java/com/szmslab/quickjavamail/receive/MailReceiver.java:93-98 | a blank name is ignored, so the name is never blank |
| Receiver.MailReceiver.Readonly | src/main/java/com/szmslab/quickjavamail/receive/MailReceiver.java:107-110 | sets readonly |
| Receiver.MailReceiver.HandOver | src/main/java/com/szmslab/quickjavamail/receive/MailReceiver.java:136-138 | the loader's delete flag starts as `!readonly` and ends as the callback left it |
| Receiver.MailReceiver.ReceiveMessages | src/main/java/com/szmslab/quickjavamail/receive/MailReceiver.java:134-144 | the loop's flags and exit are those of `Iterate` |
| Receiver.MailReceiver.Execute | src/main/java/com/szmslab/quickjavamail/receive/MailReceiver.java:119-161 | the trace of store and folder calls is that of the corrected `Session` |

## Definitions

The functions the contracts above are written in, and the source they follow.

| definition | source | follows |
|---|---|---|
| Loader.ReadLeaf | src/main/java/com/szmslab/quickjavamail/receive/MessageLoader.java:337-355 | the branches for one non-multipart part: html, text, attachment, inline image, otherwise nothing |
| Loader.Step | src/main/java/com/szmslab/quickjavamail/receive/MessageLoader.java:335-355 | one part of the loop: the multipart test and its cast, then `ReadLeaf` |
| Loader.Walk | src/main/java/com/szmslab/quickjavamail/receive/MessageLoader.java:332-357 | `setMultipartContent`: the index loop with its recursion |
| Loader.Extract | src/main/java/com/szmslab/quickjavamail/receive/MessageLoader.java:306-320 | `getContent` without the cache: a multipart root is walked, a stream becomes the partial content, anything else its string |
| Sender.Body | src/main/java/com/szmslab/quickjavamail/send/MailSender.java:495-602 | the message content `setContent` builds before the headers |
| Sender.Compose | src/main/java/com/szmslab/quickjavamail/send/MailSender.java:495-603 | `setContent` including the final `setHeaderToPart(message)` |
| Util.Sanitized | src/main/java/com/szmslab/quickjavamail/utils/MailUtil.java:85-92 | the per-character replacement loop of `toValidFileName` |
| Util.ValidFileName | src/main/java/com/szmslab/quickjavamail/utils/MailUtil.java:81-100 | `toValidFileName`: the default for a blank source or result, the trimmed replacement otherwise |
| Mime.BaseType | src/main/java/com/szmslab/quickjavamail/receive/MessageLoader.java:337-340 | the base type `isMimeType` compares |
| Mime.IsMimeType | src/main/java/com/szmslab/quickjavamail/receive/MessageLoader.java:337-340 | `Part.isMimeType` as the loader calls it |
| Receiver.Iterate | src/main/java/com/szmslab/quickjavamail/receive/MailReceiver.java:134-143 | the message loop: flag, then break when the callback does not answer true |
| Receiver.SessionAsWritten | src/main/java/com/szmslab/quickjavamail/receive/MailReceiver.java:119-161 | `execute` as written, including its `finally` block |
| Receiver.Session | src/main/java/com/szmslab/quickjavamail/receive/MailReceiver.java:119-161 | `execute` with the folder closed only when it is open |
| Properties.TransportSettings | src/main/java/com/szmslab/quickjavamail/send/SmtpProperties.java:24-49 | the transport keys the SMTP protocol hooks write |
| Properties.InitialProperties | src/main/java/com/szmslab/quickjavamail/utils/MailProperties.java:47-51 | the table after the constructor |
| Properties.SslSettings | src/main/java/com/szmslab/quickjavamail/utils/MailProperties.java:211-220 | the keys `ssl()` writes after renaming the table |

## Left out

- `MailSender.execute()` and the private `toInternetAddresses`: the session, the transport, `setSentDate(new Date())` and sending are I/O and the clock. The addresses are modelled as `MailAddress` values, and `Address.ToInternetAddress` is the conversion each array element gets.
- `MailReceiver.execute()`: `Session`, `Store` and `Folder` are abstract. How far the opening gets is the `Opening` parameter. The callback is a function from the message index to its `Reply`, which holds how the callback ended and what it last passed to `loader.deleted(...)`. Close failures are swallowed by the source, so they leave no trace in the model. A `MessagingException` from `folder.getMessages()` or from `message.setFlag(...)` after a successful `open` cannot be expressed: `Opening.Opened` assumes both succeed, and only the callback can throw inside the loop.
- `MessageLoader` getters that only read the foreign message: `getSentDate`, `getSize`, `getFromAddressList` and the other address lists beyond `toMailAddressList`, `getHeaders`, `getSubject`, `getOriginalMessage`. `getMessageId` and `getMessageUserAgent` read the headers of the modelled tree.
- `MailUtil` file and stream I/O (`exportFile`, `importFile`, `importPartialFiles`, `toByteArray`, `toByteArrayDataSource`, `createParentDirs`, `getEncoding`), and `overrideCsMapForWindows`, which changes global JVM state. `IS_WINDOWS` reads a system property; it is the `isWindows` parameter.
- The foreign JavaMail codecs (`MimeUtility.encodeText` and `decodeText`, charset transcoding in `setText`) are uninterpreted functions. Their `UnsupportedEncodingException`, the `AddressException` of `InternetAddress`, and the `GeneralSecurityException` of `MailSSLSocketFactory` are not modelled.
- The multipart boundary and the transfer encoding of the generated message are not modelled; a tree records only content types, headers, dispositions, file names, content ids and payloads.
- The anonymous `Authenticator` is the credential pair it returns.
- Header names are compared exactly, not case-insensitively as MIME headers are.
- `Properties.MigrateKeys`: `Hashtable` iteration order is unspecified, so the loop picks keys in any order. When two old keys rename to one new key, the value kept is not determined. `Properties.MigrationKeepsValue` therefore requires that no other key renames onto the same key.
- Sender headers are applied in `Hashtable` order, and with one value per key the order does not matter to the result.
- `AttachmentFile` and `InlineImageFile` with a null file name are not modelled; a received part without a file name is the NullPointerException of `Loader.ReadLeaf`.
- `Content-ID`s read back are whatever the part holds; a non-`MimeBodyPart` inline part gives `""`. Every part the model builds is a `MimeBodyPart`.
- `getContent` decides partial content by the content being a byte stream, not by its content type. The model follows the code.
- `isBlank` uses `Character.isWhitespace` on the Basic Multilingual Plane only, as `JavaStrings.IsWhitespace` lists it, and `trim` drops characters up to U+0020; there is no full Unicode fidelity.
- `RoundTrip.ReadBackComposed` requires `Readable`: a text body is set, the charset does not put `multipart` into the body content types, each file's data source has a content type other than text/plain, text/html or multipart, no encoded file name contains `multipart`, and the decoder gives back each encoded file name. The encoded-name condition is there because saving the message makes JavaMail rebuild each file part's Content-Type as the data source's type plus `name=<encoded file name>` (`mail.mime.setcontenttypefilename`), and a name containing `multipart` then sends the part down the multipart branch of MessageLoader.java:335 and its `(Multipart)` cast throws ClassCastException. The round trip reads the tree as built, not as saved: the data sources read back are compared with those sent, without the `name` parameter JavaMail adds to their content type. `RoundTrip.TextAttachmentReadAsText` shows what happens to a text/plain attachment instead.
- An html body with a null text body passes null to `setText`; the round trip is stated only when text is set.
- Registered headers named Content-Type, Content-Disposition or Content-ID (in any case) are not modelled as changing the part: in JavaMail `setHeader` with those names overrides the part's content type, disposition, file name or content id, which the model keeps as separate fields. `RoundTrip.ExtractIgnoresHeaders` and `Readable` therefore exclude such headers (`RoundTrip.NoFieldHeaders`).
- Loader.Walk: every `Container` stands for a part whose content is a `Multipart` and whose Content-Type header contains `multipart` in lower case. Media types are case-insensitive (RFC 2045, section 5.1), but the source tests `getContentType().indexOf("multipart")` case-sensitively, so a nested part headed `Multipart/Alternative` is not descended into: it falls through to the leaf tests, is not text/html or text/plain, and its bodies are dropped. The model cannot express such a part and so does not show that loss.
- Loader.ContainerIsMultipart: holds only because `Mime.ContentTypeOf` gives every container the lower-case type `multipart/<subtype>`; see the `Loader.Walk` line.
- Mime.IsMimeType: compares the lower-cased base type before any `;` with the given type. JavaMail's `ContentType.match` also accepts a part-side `*` subtype (a `text/*` part matches `text/html`) and tokenizes comments and whitespace inside the type; neither is modelled.
- `new MailAddress(null)` is not modelled: `MailAddress.address` is a string, so the `"null"` that `toString` would append and the NullPointerException of `new InternetAddress(null)` in `toInternetAddress` have no counterpart.
- Address.InternetAddressRoundTrip: the address string is taken as a bare addr-spec. `new InternetAddress(address, personal, charset)` stores it unparsed, but an address read back from a received header is parsed, so a string such as `Foo <a@b>` or one with a comment would not come back unchanged.
- Loader.MessageLoader.GetContent: Java hands out the cached `MessageContent` and its `ArrayList`s themselves, so a caller that changes a list returned by `getAttachmentFileList()` or `getInlineImageFileList()` changes what later calls return. The partial content is the `ByteArrayInputStream` object itself, so a caller that reads it consumes it for every later call. The model returns values; neither kind of aliasing nor the stream position is modelled.

## Findings

| source | as written | input that shows it | evidently intended | confidence | as-written member | corrected member |
|---|---|---|---|---|---|---|
| src/main/java/com/szmslab/quickjavamail/receive/MailReceiver.java:145-159 | the `finally` block calls `folder.close(!readonly)` whenever `getFolder` returned a folder, even one whose `open` failed; JavaMail folders throw `IllegalStateException` when closed while not open, the `catch (MessagingException e)` does not catch it, and `store.close()` is skipped | a folder whose `open` throws a `MessagingException` (`Opening.OpenFails`): the store stays connected and the caller sees the `IllegalStateException` instead of the open failure | close the folder only when it is open, and always close the store | medium, not executed; depends on JavaMail's folders refusing to close while not open | Receiver.SessionAsWritten, Receiver.OpenFailureLeavesStoreOpen | Receiver.Session, Receiver.ClosesOnEveryPath |
