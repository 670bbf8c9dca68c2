/**
 * `MailProperties` and its three subclasses `SmtpProperties`,
 * `ImapProperties` and `Pop3Properties`: a JavaMail property table keyed by
 * `mail.<protocol>.<name>`, filled by fluent setters, and the SSL switch
 * that renames every key from the plain protocol to its SSL variant.
 */
module Properties {
  import opened Wrappers
  import opened JavaStrings

  /** Which subclass an instance is; it fixes the two protocol names. */
  datatype Family = Smtp | Imap | Pop3

  /** `getDefaultProtocol()` of each subclass. */
  function DefaultProtocol(f: Family): (p: string)
    ensures |p| == 4
  {
    match f
    case Smtp => "smtp"
    case Imap => "imap"
    case Pop3 => "pop3"
  }

  /** `getSslProtocol()` of each subclass: the default protocol with an `s` appended. */
  function SslProtocol(f: Family): (p: string)
    ensures p == DefaultProtocol(f) + "s"
  {
    match f
    case Smtp => "smtps"
    case Imap => "imaps"
    case Pop3 => "pop3s"
  }

  /** Only the SMTP family has protocol names starting with `smtp`. */
  lemma SmtpPrefixOnlyForSmtp(f: Family)
    ensures IsPrefix("smtp", DefaultProtocol(f)) <==> f == Smtp
    ensures IsPrefix("smtp", SslProtocol(f)) <==> f == Smtp
  {
    match f
    case Smtp =>
    case Imap =>
      assert DefaultProtocol(f)[0] != 's' && SslProtocol(f)[0] != 's';
    case Pop3 =>
      assert DefaultProtocol(f)[0] != 's' && SslProtocol(f)[0] != 's';
  }

  const TRANSPORT_PROTOCOL: string := "mail.transport.protocol"
  /** `new InternetAddress().getType()`. */
  const ADDRESS_TYPE: string := "rfc822"
  /** `SSLSocketFactory.class.getName()`. */
  const SSL_SOCKET_FACTORY: string := "javax.net.ssl.SSLSocketFactory"
  const TIMEOUT_DEFAULT: string := "60000"

  /**
   * A property value: a string, or the `MailSSLSocketFactory` object the
   * trusted SSL mode stores, with the host names it trusts.
   */
  datatype Value = Str(s: string) | SocketFactory(trustedHosts: seq<Option<string>>)

  type PropertyMap = map<string, Value>

  /** `String.format("mail.%s.<name>", protocol)`. */
  function Key(protocol: string, name: string): string {
    "mail." + protocol + "." + name
  }

  /** `getString(key)`: `Properties.getProperty`, null unless the value is a string. */
  function GetString(m: PropertyMap, key: string): Option<string> {
    if key in m && m[key].Str? then Some(m[key].s) else None
  }

  /** `setString(key, value)`: stores the value only when it is not blank. */
  function PutString(m: PropertyMap, key: string, value: Option<string>): (r: PropertyMap)
    ensures IsBlank(value) ==> r == m
    ensures IsNotBlank(value) ==> r.Keys == m.Keys + {key} && r[key] == Str(value.value)
    ensures forall k :: k in m && k != key ==> k in r && r[k] == m[k]
  {
    if IsNotBlank(value) then m[key := Str(value.value)] else m
  }

  /** `setObject(key, value)`: stores the value only when it is not null. */
  function PutObject(m: PropertyMap, key: string, value: Option<Value>): (r: PropertyMap)
    ensures value.None? ==> r == m
    ensures value.Some? ==> r.Keys == m.Keys + {key} && r[key] == value.value
    ensures forall k :: k in m && k != key ==> k in r && r[k] == m[k]
  {
    if value.Some? then m[key := value.value] else m
  }

  /**
   * What `getDefaultProtocol()` / `getSslProtocol()` write besides
   * returning a name: the SMTP family records the transport protocol, for
   * all transports and for the `rfc822` address type.
   */
  function TransportSettings(f: Family, m: PropertyMap, protocol: string): PropertyMap {
    if f == Smtp then
      PutString(PutString(m, TRANSPORT_PROTOCOL, Some(protocol)),
                TRANSPORT_PROTOCOL + "." + ADDRESS_TYPE, Some(protocol))
    else m
  }

  /** The table a new instance holds. */
  function InitialProperties(f: Family): PropertyMap {
    var p := DefaultProtocol(f);
    var m := TransportSettings(f, map[], p);
    PutString(PutString(m, Key(p, "connectiontimeout"), Some(TIMEOUT_DEFAULT)),
              Key(p, "timeout"), Some(TIMEOUT_DEFAULT))
  }

  /** A new instance times out connecting and reading after 60000 ms. */
  lemma InitialTimeouts(f: Family)
    ensures GetString(InitialProperties(f), Key(DefaultProtocol(f), "connectiontimeout")) == Some(TIMEOUT_DEFAULT)
    ensures GetString(InitialProperties(f), Key(DefaultProtocol(f), "timeout")) == Some(TIMEOUT_DEFAULT)
    ensures f == Smtp ==> GetString(InitialProperties(f), TRANSPORT_PROTOCOL) == Some("smtp")
    ensures f == Smtp ==> GetString(InitialProperties(f), TRANSPORT_PROTOCOL + "." + ADDRESS_TYPE) == Some("smtp")
    ensures f != Smtp ==> TRANSPORT_PROTOCOL !in InitialProperties(f)
    ensures f != Smtp ==> TRANSPORT_PROTOCOL + "." + ADDRESS_TYPE !in InitialProperties(f)
  {
    NotBlankByFirst(TIMEOUT_DEFAULT);
    NotBlankByFirst("smtp");
    var p := DefaultProtocol(f);
    assert Key(p, "connectiontimeout") != Key(p, "timeout") by {
      assert |Key(p, "connectiontimeout")| != |Key(p, "timeout")|;
    }
    if f == Smtp {
      var rfc822 := TRANSPORT_PROTOCOL + "." + ADDRESS_TYPE;
      assert Key(p, "connectiontimeout")[5] != TRANSPORT_PROTOCOL[5];
      assert Key(p, "timeout")[5] != TRANSPORT_PROTOCOL[5];
      assert Key(p, "connectiontimeout")[5] != rfc822[5];
      assert Key(p, "timeout")[5] != rfc822[5];
      assert |TRANSPORT_PROTOCOL| != |rfc822|;
    }
  }

  /** The key `ssl()` writes for a key `k` of the old table. */
  function Renamed(k: string, before: string, after: string): string
    requires before != []
  {
    ReplaceAll(k, before, after)
  }

  /**
   * `r` is a table `ssl()` may build from `m` when iterating in some order:
   * every renamed key is present, and every entry of `r` is the value of
   * some key of `m` that renames to it (the last one visited wins).
   */
  ghost predicate MigratedFrom(m: PropertyMap, r: PropertyMap, before: string, after: string)
    requires before != []
  {
    && (forall k :: k in m ==> Renamed(k, before, after) in r)
    && (forall k :: k in r ==> exists k0 :: k0 in m && Renamed(k0, before, after) == k && r[k] == m[k0])
  }

  /**
   * The copy loop of `ssl()`: every entry of `m`, in whatever order the
   * table yields them, is put into a fresh table under its renamed key.
   */
  method MigrateKeys(m: PropertyMap, before: string, after: string) returns (r: PropertyMap)
    requires before != []
    ensures MigratedFrom(m, r, before, after)
  {
    r := map[];
    var rest := m.Keys;
    while rest != {}
      invariant rest <= m.Keys
      invariant forall k :: k in m && k !in rest ==> Renamed(k, before, after) in r
      invariant forall k :: k in r ==>
        exists k0 :: k0 in m && k0 !in rest && Renamed(k0, before, after) == k && r[k] == m[k0]
      decreases rest
    {
      var key :| key in rest;
      var renamed := Renamed(key, before, after);
      r := r[renamed := m[key]];
      rest := rest - {key};
      assert key in m && key !in rest && Renamed(key, before, after) == renamed && r[renamed] == m[key];
    }
  }

  /** Every key of the new table comes from a key of the old one. */
  lemma MigrationKeys(m: PropertyMap, r: PropertyMap, before: string, after: string)
    requires before != [] && MigratedFrom(m, r, before, after)
    ensures r.Keys == set k | k in m :: Renamed(k, before, after)
  {
    forall k | k in r
      ensures k in set k1 | k1 in m :: Renamed(k1, before, after)
    {
      var k0 :| k0 in m && Renamed(k0, before, after) == k && r[k] == m[k0];
    }
  }

  /** A key no other key renames onto keeps its value under its new name. */
  lemma MigrationKeepsValue(m: PropertyMap, r: PropertyMap, before: string, after: string, k: string)
    requires before != [] && MigratedFrom(m, r, before, after)
    requires k in m
    requires forall k1 :: k1 in m && k1 != k ==> Renamed(k1, before, after) != Renamed(k, before, after)
    ensures Renamed(k, before, after) in r && r[Renamed(k, before, after)] == m[k]
  {
    var nk := Renamed(k, before, after);
    var k0 :| k0 in m && Renamed(k0, before, after) == nk && r[nk] == m[k0];
  }

  /**
   * When the new protocol name contains the old one (as `smtps` contains
   * `smtp`), a key that does not mention the old protocol is kept, value
   * and all: no other key can be renamed onto it.
   */
  lemma TokenFreeKeyKept(m: PropertyMap, r: PropertyMap, before: string, after: string, k: string)
    requires before != [] && Contains(after, before)
    requires MigratedFrom(m, r, before, after)
    requires k in m && !Contains(k, before)
    ensures k in r && r[k] == m[k]
  {
    ReplaceAbsent(k, before, after);
    forall k1 | k1 in m && k1 != k
      ensures Renamed(k1, before, after) != k
    {
      if Contains(k1, before) {
        ReplaceLeavesReplacement(k1, before, after);
        if Renamed(k1, before, after) == k {
          ContainsTransitive(k, after, before);
        }
      } else {
        ReplaceAbsent(k1, before, after);
      }
    }
    MigrationKeepsValue(m, r, before, after, k);
  }

  /** `x` and `t` differ at offset `d`, so `x` does not start with `t`. */
  lemma DiffersAt(t: string, x: string, d: nat)
    requires d < |t| && d < |x| && x[d] != t[d]
    ensures !IsPrefix(t, x)
  {
    if |t| <= |x| {
      assert x[..|t|][d] != t[d];
    }
  }

  /** The protocol name does not occur inside the leading `mail.` of a key. */
  lemma NoProtocolInMailPrefix(f: Family, name: string)
    ensures NoMatchBefore(Key(DefaultProtocol(f), name), DefaultProtocol(f), 5)
  {
    var p := DefaultProtocol(f);
    var s := Key(p, name);
    assert s == "mail." + (p + ("." + name));
    forall j | 0 <= j < 5
      ensures !IsPrefix(p, s[j..])
    {
      if f == Imap && j == 2 {
        DiffersAt(p, s[j..], 1);
      } else {
        DiffersAt(p, s[j..], 0);
      }
    }
  }

  /**
   * `ssl()` renames `mail.<protocol>.<name>` to `mail.<ssl protocol>.<name>`
   * when `name` does not itself mention the protocol.
   */
  lemma QualifiedKeyRenamed(f: Family, name: string)
    requires !Contains(name, DefaultProtocol(f))
    ensures Renamed(Key(DefaultProtocol(f), name), DefaultProtocol(f), SslProtocol(f)) ==
            Key(SslProtocol(f), name)
  {
    var p := DefaultProtocol(f);
    var q := SslProtocol(f);
    var s := Key(p, name);
    NoProtocolInMailPrefix(f, name);
    ReplaceSkips(s, 5, p, q);
    assert s[..5] == "mail." && s[5..] == p + ("." + name);
    ProtocolReplaced(p, q, name);
  }

  /** After `mail.`, the protocol is replaced and the dotted name is copied. */
  lemma ProtocolReplaced(p: string, q: string, name: string)
    requires p != [] && p[0] != '.' && !Contains(name, p)
    ensures ReplaceAll(p + ("." + name), p, q) == q + ("." + name)
  {
    var rest := p + ("." + name);
    assert rest[..|p|] == p;
    assert rest[|p|..] == "." + name;
    var dotted := "." + name;
    assert !IsPrefix(p, dotted) by {
      DiffersAt(p, dotted, 0);
    }
    assert dotted[1..] == name;
    ReplaceAbsent(name, p, q);
  }

  /** The old-protocol form of a key, `mail.<protocol>.`. */
  function QualifiedPrefix(protocol: string): string {
    Key(protocol, "")
  }

  /** No tail of `mail.<protocol>.` can be confused with the SSL protocol name. */
  lemma QualifiedPrefixClashes(f: Family)
    ensures forall j :: 0 <= j < |QualifiedPrefix(DefaultProtocol(f))| ==>
      Clash(QualifiedPrefix(DefaultProtocol(f))[j..], SslProtocol(f))
  {
    match f
    case Smtp =>
      assert QualifiedPrefix("smtp") == "mail.smtp.";
      SmtpPrefixClashes();
    case Imap =>
      assert QualifiedPrefix("imap") == "mail.imap.";
      ImapPrefixClashes();
    case Pop3 =>
      assert QualifiedPrefix("pop3") == "mail.pop3.";
      Pop3PrefixClashes();
  }

  lemma SmtpPrefixClashes()
    ensures forall j :: 0 <= j < 10 ==> Clash("mail.smtp."[j..], "smtps")
  {
    forall j | 0 <= j < 10
      ensures Clash("mail.smtp."[j..], "smtps")
    {
      var x := "mail.smtp."[j..];
      if j == 5 {
        assert x == "smtp.";
        assert Clash("smtp.", "smtps");
      } else {
        assert x[0] == "mail.smtp."[j];
        assert x[0] != 's';
      }
    }
  }

  lemma ImapPrefixClashes()
    ensures forall j :: 0 <= j < 10 ==> Clash("mail.imap."[j..], "imaps")
  {
    forall j | 0 <= j < 10
      ensures Clash("mail.imap."[j..], "imaps")
    {
      var x := "mail.imap."[j..];
      if j == 2 {
        assert x == "il.imap.";
        assert Clash("il.imap.", "imaps");
      } else if j == 5 {
        assert x == "imap.";
        assert Clash("imap.", "imaps");
      } else {
        assert x[0] == "mail.imap."[j];
        assert x[0] != 'i';
      }
    }
  }

  lemma Pop3PrefixClashes()
    ensures forall j :: 0 <= j < 10 ==> Clash("mail.pop3."[j..], "pop3s")
  {
    forall j | 0 <= j < 10
      ensures Clash("mail.pop3."[j..], "pop3s")
    {
      var x := "mail.pop3."[j..];
      if j == 5 {
        assert x == "pop3.";
        assert Clash("pop3.", "pop3s");
      } else if j == 7 {
        assert x == "p3.";
        assert Clash("p3.", "pop3s");
      } else {
        assert x[0] == "mail.pop3."[j];
        assert x[0] != 'p';
      }
    }
  }

  /** After the renaming no key is left under the plain protocol. */
  lemma NoResidualQualifiedKeys(f: Family, m: PropertyMap, r: PropertyMap)
    requires MigratedFrom(m, r, DefaultProtocol(f), SslProtocol(f))
    ensures forall k :: k in r ==> !IsPrefix(QualifiedPrefix(DefaultProtocol(f)), k)
  {
    var p := DefaultProtocol(f);
    var q := SslProtocol(f);
    var w := QualifiedPrefix(p);
    forall k | k in r
      ensures !IsPrefix(w, k)
    {
      var k0 :| k0 in m && Renamed(k0, p, q) == k && r[k] == m[k0];
      NoRenamedKeyUnderPlainProtocol(f, k0);
    }
  }

  /** A renamed key never starts with `mail.<protocol>.`. */
  lemma NoRenamedKeyUnderPlainProtocol(f: Family, k0: string)
    ensures !IsPrefix(QualifiedPrefix(DefaultProtocol(f)), Renamed(k0, DefaultProtocol(f), SslProtocol(f)))
  {
    var p := DefaultProtocol(f);
    var w := QualifiedPrefix(p);
    QualifiedPrefixClashes(f);
    LiteralPrefix(k0, w, p, SslProtocol(f));
    if IsPrefix(w, k0) {
      assert k0[5..][..|p|] == w[5..9] == p;
      assert IsPrefix(p, k0[5..]);
    }
  }

  /** A second `ssl()` renames from the SSL protocol to itself and changes no entry. */
  lemma SecondSslKeepsTable(m: PropertyMap, r: PropertyMap, protocol: string)
    requires protocol != [] && MigratedFrom(m, r, protocol, protocol)
    ensures r == m
  {
    forall k | k in m
      ensures Renamed(k, protocol, protocol) == k
    {
      ReplaceSelf(k, protocol);
    }
    forall k | k in r
      ensures k in m && r[k] == m[k]
    {
      var k0 :| k0 in m && Renamed(k0, protocol, protocol) == k && r[k] == m[k0];
      ReplaceSelf(k0, protocol);
    }
  }

  /** The keys `ssl()` sets once the table is renamed. */
  function SslSettings(m: PropertyMap, q: string, trusted: bool): PropertyMap {
    var m1 := PutString(m, Key(q, "ssl.enable"), Some("true"));
    var m2 :=
      if trusted then
        PutObject(m1, Key(q, "socketFactory"), Some(SocketFactory([GetString(m1, Key(q, "host"))])))
      else
        PutString(m1, Key(q, "socketFactory.class"), Some(SSL_SOCKET_FACTORY));
    var m3 := PutString(m2, Key(q, "socketFactory.fallback"), Some("false"));
    PutString(m3, Key(q, "socketFactory.port"), GetString(m3, Key(q, "port")))
  }

  /** The keys `SslSettings` may write. */
  function SslKeys(q: string): set<string> {
    {Key(q, "ssl.enable"), Key(q, "socketFactory"), Key(q, "socketFactory.class"),
     Key(q, "socketFactory.fallback"), Key(q, "socketFactory.port")}
  }

  /** Keys of different names under one protocol differ when the names differ in length. */
  lemma KeysDiffer(q: string, a: string, b: string)
    requires |a| != |b|
    ensures Key(q, a) != Key(q, b)
  {
    assert |Key(q, a)| == |q| + 6 + |a|;
    assert |Key(q, b)| == |q| + 6 + |b|;
  }

  /** The SSL keys are five different keys, none of them the host or port key. */
  lemma SslKeysDistinct(q: string)
    ensures Key(q, "host") != Key(q, "port")
    ensures forall a, b :: a in SslNames && b in SslNames + ["host", "port"] && |a| != |b| ==> Key(q, a) != Key(q, b)
  {
    assert Key(q, "host")[|q| + 6] != Key(q, "port")[|q| + 6];
    forall a, b | a in SslNames && b in SslNames + ["host", "port"] && |a| != |b|
      ensures Key(q, a) != Key(q, b)
    {
      KeysDiffer(q, a, b);
    }
  }

  /** The names of the keys `SslSettings` may write, all of different lengths. */
  const SslNames: seq<string> :=
    ["ssl.enable", "socketFactory", "socketFactory.class", "socketFactory.fallback", "socketFactory.port"]

  /** The intermediate tables of `SslSettings`. */
  lemma SslSettingsSteps(m: PropertyMap, q: string, trusted: bool)
    ensures var m1 := PutString(m, Key(q, "ssl.enable"), Some("true"));
      var m2 :=
        if trusted then
          PutObject(m1, Key(q, "socketFactory"), Some(SocketFactory([GetString(m, Key(q, "host"))])))
        else
          PutString(m1, Key(q, "socketFactory.class"), Some(SSL_SOCKET_FACTORY));
      var m3 := PutString(m2, Key(q, "socketFactory.fallback"), Some("false"));
      SslSettings(m, q, trusted) == PutString(m3, Key(q, "socketFactory.port"), GetString(m, Key(q, "port")))
  {
    var port := Key(q, "port");
    var m1 := PutString(m, Key(q, "ssl.enable"), Some("true"));
    KeysDiffer(q, "ssl.enable", "host");
    KeysDiffer(q, "ssl.enable", "port");
    GetStringAfterPut(m, Key(q, "host"), Key(q, "ssl.enable"), Some("true"));
    GetStringAfterPut(m, port, Key(q, "ssl.enable"), Some("true"));
    var m2 :=
      if trusted then
        PutObject(m1, Key(q, "socketFactory"), Some(SocketFactory([GetString(m, Key(q, "host"))])))
      else
        PutString(m1, Key(q, "socketFactory.class"), Some(SSL_SOCKET_FACTORY));
    if trusted {
      KeysDiffer(q, "socketFactory", "port");
      GetStringAfterPutObject(m1, port, Key(q, "socketFactory"), Some(SocketFactory([GetString(m, Key(q, "host"))])));
    } else {
      KeysDiffer(q, "socketFactory.class", "port");
      GetStringAfterPut(m1, port, Key(q, "socketFactory.class"), Some(SSL_SOCKET_FACTORY));
    }
    KeysDiffer(q, "socketFactory.fallback", "port");
    GetStringAfterPut(m2, port, Key(q, "socketFactory.fallback"), Some("false"));
  }

  /** Storing a string under another key does not change what `getString` reads. */
  lemma GetStringAfterPut(m: PropertyMap, key: string, other: string, value: Option<string>)
    requires key != other
    ensures GetString(PutString(m, other, value), key) == GetString(m, key)
  {
  }

  /** Storing an object under another key does not change what `getString` reads. */
  lemma GetStringAfterPutObject(m: PropertyMap, key: string, other: string, value: Option<Value>)
    requires key != other
    ensures GetString(PutObject(m, other, value), key) == GetString(m, key)
  {
  }

  /**
   * After `ssl()` the SSL flag is on, fallback is off, and the socket
   * factory is the trusting one, trusting the configured host, or the JDK's.
   */
  lemma SslSettingsFacts(m: PropertyMap, q: string, trusted: bool)
    ensures var r := SslSettings(m, q, trusted);
      && GetString(r, Key(q, "ssl.enable")) == Some("true")
      && GetString(r, Key(q, "socketFactory.fallback")) == Some("false")
      && (trusted ==> r[Key(q, "socketFactory")] == SocketFactory([GetString(m, Key(q, "host"))]))
      && (!trusted ==> GetString(r, Key(q, "socketFactory.class")) == Some(SSL_SOCKET_FACTORY))
  {
    NotBlankByFirst("true");
    NotBlankByFirst("false");
    NotBlankByFirst(SSL_SOCKET_FACTORY);
    SslSettingsSteps(m, q, trusted);
    KeysDiffer(q, "ssl.enable", "socketFactory.fallback");
    KeysDiffer(q, "ssl.enable", "socketFactory.port");
    KeysDiffer(q, "socketFactory", "socketFactory.fallback");
    KeysDiffer(q, "socketFactory", "socketFactory.port");
    KeysDiffer(q, "socketFactory.class", "socketFactory.fallback");
    KeysDiffer(q, "socketFactory.class", "socketFactory.port");
    KeysDiffer(q, "socketFactory.fallback", "socketFactory.port");
  }

  /** The entry of `k` is the same in `m` and `r`, absent from both or equal. */
  predicate Untouched(m: PropertyMap, r: PropertyMap, k: string) {
    (k in r <==> k in m) && (k in m ==> r[k] == m[k])
  }

  /**
   * The socket factory port copies the configured port when there is one
   * and is left alone when there is none; the socket factory key of the
   * branch not taken is left alone; and every key `ssl()` does not set
   * keeps its entry.
   */
  lemma SslSettingsFrame(m: PropertyMap, q: string, trusted: bool)
    ensures var r := SslSettings(m, q, trusted);
      && (IsNotBlank(GetString(m, Key(q, "port"))) ==>
            GetString(r, Key(q, "socketFactory.port")) == GetString(m, Key(q, "port")))
      && (IsBlank(GetString(m, Key(q, "port"))) ==> Untouched(m, r, Key(q, "socketFactory.port")))
      && (trusted ==> Untouched(m, r, Key(q, "socketFactory.class")))
      && (!trusted ==> Untouched(m, r, Key(q, "socketFactory")))
      && (forall k :: k in m && k !in SslKeys(q) ==> k in r && r[k] == m[k])
      && (forall k :: k in r && k !in SslKeys(q) ==> k in m)
  {
    SslSettingsSteps(m, q, trusted);
    var sfc := Key(q, "socketFactory.class");
    var sf := Key(q, "socketFactory");
    KeysDiffer(q, "socketFactory.class", "ssl.enable");
    KeysDiffer(q, "socketFactory.class", "socketFactory");
    KeysDiffer(q, "socketFactory.class", "socketFactory.fallback");
    KeysDiffer(q, "socketFactory.class", "socketFactory.port");
    KeysDiffer(q, "socketFactory", "ssl.enable");
    KeysDiffer(q, "socketFactory", "socketFactory.fallback");
    KeysDiffer(q, "socketFactory", "socketFactory.port");
  }

  /**
   * For SMTP, the transport protocol entries written before the renaming
   * survive it and name the SSL protocol afterwards.
   */
  lemma SmtpSslTransportKeys(m: PropertyMap, r: PropertyMap, trusted: bool)
    requires MigratedFrom(TransportSettings(Smtp, m, "smtps"), r, "smtp", "smtps")
    ensures GetString(SslSettings(r, "smtps", trusted), TRANSPORT_PROTOCOL) == Some("smtps")
    ensures GetString(SslSettings(r, "smtps", trusted), TRANSPORT_PROTOCOL + "." + ADDRESS_TYPE) == Some("smtps")
  {
    var pre := TransportSettings(Smtp, m, "smtps");
    var t1 := TRANSPORT_PROTOCOL;
    var t2 := TRANSPORT_PROTOCOL + "." + ADDRESS_TYPE;
    NotBlankByFirst("smtps");
    assert t1 != t2 by { assert |t1| != |t2|; }
    assert pre[t1] == Str("smtps") && pre[t2] == Str("smtps");
    TransportKeysKept(pre, r);
    TransportKeysNotSslKeys();
    SslSettingsFrame(r, "smtps", trusted);
  }

  /** The renaming from `smtp` to `smtps` keeps the transport protocol entries. */
  lemma TransportKeysKept(pre: PropertyMap, r: PropertyMap)
    requires MigratedFrom(pre, r, "smtp", "smtps")
    requires TRANSPORT_PROTOCOL in pre && TRANSPORT_PROTOCOL + "." + ADDRESS_TYPE in pre
    ensures TRANSPORT_PROTOCOL in r && r[TRANSPORT_PROTOCOL] == pre[TRANSPORT_PROTOCOL]
    ensures TRANSPORT_PROTOCOL + "." + ADDRESS_TYPE in r &&
      r[TRANSPORT_PROTOCOL + "." + ADDRESS_TYPE] == pre[TRANSPORT_PROTOCOL + "." + ADDRESS_TYPE]
  {
    TransportKeysFree();
    SmtpRenameKeeps(pre, r, TRANSPORT_PROTOCOL);
    SmtpRenameKeeps(pre, r, TRANSPORT_PROTOCOL + "." + ADDRESS_TYPE);
  }

  /** `TokenFreeKeyKept` for the SMTP protocol names. */
  lemma SmtpRenameKeeps(pre: PropertyMap, r: PropertyMap, k: string)
    requires MigratedFrom(pre, r, "smtp", "smtps")
    requires k in pre && !Contains(k, "smtp")
    ensures k in r && r[k] == pre[k]
  {
    ContainsAt("smtps", "smtp", 0);
    TokenFreeKeyKept(pre, r, "smtp", "smtps", k);
  }

  /** The transport protocol keys do not mention `smtp`. */
  lemma TransportKeysFree()
    ensures !Contains(TRANSPORT_PROTOCOL, "smtp")
    ensures !Contains(TRANSPORT_PROTOCOL + "." + ADDRESS_TYPE, "smtp")
  {
    TransportKeyFree();
    AddressTypeKeyFree();
  }

  lemma TransportKeyFree()
    ensures !Contains(TRANSPORT_PROTOCOL, "smtp")
  {
    var s := TRANSPORT_PROTOCOL;
    assert forall j :: 0 <= j < |s| - 1 ==> !(s[j] == 's' && s[j + 1] == 'm');
    AbsentByPairs(s, "smtp");
  }

  lemma AddressTypeKeyFree()
    ensures !Contains(TRANSPORT_PROTOCOL + "." + ADDRESS_TYPE, "smtp")
  {
    var s := TRANSPORT_PROTOCOL + "." + ADDRESS_TYPE;
    assert s == "mail.transport.protocol.rfc822";
    assert forall j :: 0 <= j < |s| - 1 ==> !(s[j] == 's' && s[j + 1] == 'm');
    AbsentByPairs(s, "smtp");
  }

  /** The transport protocol keys are not among the keys the SSL switch sets. */
  lemma TransportKeysNotSslKeys()
    ensures TRANSPORT_PROTOCOL !in SslKeys("smtps")
    ensures TRANSPORT_PROTOCOL + "." + ADDRESS_TYPE !in SslKeys("smtps")
  {
    forall k | k in SslKeys("smtps")
      ensures k != TRANSPORT_PROTOCOL && k != TRANSPORT_PROTOCOL + "." + ADDRESS_TYPE
    {
      assert k[5] == 's';
      assert TRANSPORT_PROTOCOL[5] == 't';
      assert (TRANSPORT_PROTOCOL + "." + ADDRESS_TYPE)[5] == 't';
    }
  }

  /** No two adjacent characters of `s` spell the start of `t`, so `t` does not occur. */
  lemma AbsentByPairs(s: string, t: string)
    requires |t| >= 2
    requires forall j :: 0 <= j < |s| - 1 ==> !(s[j] == t[0] && s[j + 1] == t[1])
    ensures !Contains(s, t)
  {
    forall j | 0 <= j <= |s|
      ensures !IsPrefix(t, s[j..])
    {
      if j + 1 < |s| {
        if s[j] != t[0] {
          DiffersAt(t, s[j..], 0);
        } else {
          DiffersAt(t, s[j..], 1);
        }
      }
    }
  }

  /** A user name and password, as the `Authenticator` returns them. */
  datatype Credential = Credential(userName: string, password: string)

  class MailProperties {
    const family: Family
    var properties: PropertyMap
    var protocol: string
    var authenticator: Option<Credential>

    /** The protocol is always one of the two the subclass names. */
    ghost predicate Valid()
      reads this
    {
      protocol == DefaultProtocol(family) || protocol == SslProtocol(family)
    }

    /** The constructor: default protocol, 60000 ms connection and read timeouts. */
    constructor(f: Family)
      ensures family == f && Valid()
      ensures protocol == DefaultProtocol(f)
      ensures properties == InitialProperties(f)
      ensures authenticator == None
    {
      family := f;
      properties := map[];
      protocol := "";
      authenticator := None;
      new;
      var p := GetDefaultProtocol();
      protocol := p;
      ConnectionTimeout(Some(TIMEOUT_DEFAULT));
      Timeout(Some(TIMEOUT_DEFAULT));
    }

    /** `setString(key, value)`. */
    method SetString(key: string, value: Option<string>)
      modifies this
      ensures properties == PutString(old(properties), key, value)
      ensures protocol == old(protocol) && authenticator == old(authenticator)
    {
      if IsNotBlank(value) {
        properties := properties[key := Str(value.value)];
      }
    }

    /** `setObject(key, value)`. */
    method SetObject(key: string, value: Option<Value>)
      modifies this
      ensures properties == PutObject(old(properties), key, value)
      ensures protocol == old(protocol) && authenticator == old(authenticator)
    {
      if value.Some? {
        properties := properties[key := value.value];
      }
    }

    /** `SmtpProperties.transportProtocol(protocol)`. */
    method TransportProtocol(p: string)
      modifies this
      ensures properties == TransportSettings(Smtp, old(properties), p)
      ensures protocol == old(protocol) && authenticator == old(authenticator)
    {
      SetString(TRANSPORT_PROTOCOL, Some(p));
      SetString(TRANSPORT_PROTOCOL + "." + ADDRESS_TYPE, Some(p));
    }

    /** `getDefaultProtocol()`, dispatched on the subclass. */
    method GetDefaultProtocol() returns (p: string)
      modifies this
      ensures p == DefaultProtocol(family)
      ensures properties == TransportSettings(family, old(properties), p)
      ensures protocol == old(protocol) && authenticator == old(authenticator)
    {
      p := DefaultProtocol(family);
      if family == Smtp {
        TransportProtocol(p);
      }
    }

    /** `getSslProtocol()`, dispatched on the subclass. */
    method GetSslProtocol() returns (p: string)
      modifies this
      ensures p == SslProtocol(family)
      ensures properties == TransportSettings(family, old(properties), p)
      ensures protocol == old(protocol) && authenticator == old(authenticator)
    {
      p := SslProtocol(family);
      if family == Smtp {
        TransportProtocol(p);
      }
    }

    /** `host(host)`: the generic and the protocol-specific host key. */
    method Host(host: Option<string>)
      modifies this
      ensures properties == PutString(PutString(old(properties), "mail.host", host), Key(protocol, "host"), host)
      ensures protocol == old(protocol) && authenticator == old(authenticator)
    {
      SetString("mail.host", host);
      SetString(Key(protocol, "host"), host);
    }

    /** `port(port)`. */
    method Port(port: Option<string>)
      modifies this
      ensures properties == PutString(old(properties), Key(protocol, "port"), port)
      ensures protocol == old(protocol) && authenticator == old(authenticator)
    {
      SetString(Key(protocol, "port"), port);
    }

    /** `connectiontimeout(ms)`. */
    method ConnectionTimeout(ms: Option<string>)
      modifies this
      ensures properties == PutString(old(properties), Key(protocol, "connectiontimeout"), ms)
      ensures protocol == old(protocol) && authenticator == old(authenticator)
    {
      SetString(Key(protocol, "connectiontimeout"), ms);
    }

    /** `timeout(ms)`. */
    method Timeout(ms: Option<string>)
      modifies this
      ensures properties == PutString(old(properties), Key(protocol, "timeout"), ms)
      ensures protocol == old(protocol) && authenticator == old(authenticator)
    {
      SetString(Key(protocol, "timeout"), ms);
    }

    /**
     * `authenticate(userName, password)`: only when both are non-blank, store
     * the credential and, for an SMTP protocol, switch SMTP authentication on.
     */
    method Authenticate(userName: Option<string>, password: Option<string>)
      modifies this
      ensures IsBlank(userName) || IsBlank(password) ==>
        properties == old(properties) && authenticator == old(authenticator)
      ensures IsNotBlank(userName) && IsNotBlank(password) ==>
        && authenticator == Some(Credential(userName.value, password.value))
        && properties == (if IsPrefix("smtp", protocol)
                          then PutString(old(properties), Key(protocol, "auth"), Some("true"))
                          else old(properties))
      ensures protocol == old(protocol)
    {
      if IsNotBlank(userName) && IsNotBlank(password) {
        authenticator := Some(Credential(userName.value, password.value));
        if IsPrefix("smtp", protocol) {
          SetString(Key(protocol, "auth"), Some("true"));
        }
      }
    }

    /** `starttls(isTrustedHost)`; `starttls()` is `Starttls(false)`. */
    method Starttls(trusted: bool)
      modifies this
      ensures var m1 := PutString(old(properties), Key(protocol, "starttls.enable"), Some("true"));
        properties == (if trusted then PutString(m1, Key(protocol, "ssl.trust"), GetString(m1, Key(protocol, "host")))
                       else m1)
      ensures protocol == old(protocol) && authenticator == old(authenticator)
    {
      SetString(Key(protocol, "starttls.enable"), Some("true"));
      if trusted {
        SetString(Key(protocol, "ssl.trust"), GetString(properties, Key(protocol, "host")));
      }
    }

    /**
     * `ssl(isTrustedHost)`; `ssl()` is `Ssl(false)`. Switches to the SSL
     * protocol, renames every key, then sets the SSL keys. `migrated` is
     * the renamed table, which depends on the table's iteration order.
     */
    method Ssl(trusted: bool) returns (ghost migrated: PropertyMap)
      requires Valid()
      modifies this
      ensures Valid() && protocol == SslProtocol(family)
      ensures MigratedFrom(TransportSettings(family, old(properties), protocol), migrated, old(protocol), protocol)
      ensures properties == SslSettings(migrated, protocol, trusted)
      ensures authenticator == old(authenticator)
    {
      var beforeProtocol := protocol;
      var p := GetSslProtocol();
      protocol := p;
      var newProperties := MigrateKeys(properties, beforeProtocol, protocol);
      properties := newProperties;
      migrated := newProperties;
      SetString(Key(protocol, "ssl.enable"), Some("true"));
      if trusted {
        var factory := SocketFactory([GetString(properties, Key(protocol, "host"))]);
        SetObject(Key(protocol, "socketFactory"), Some(factory));
      } else {
        SetString(Key(protocol, "socketFactory.class"), Some(SSL_SOCKET_FACTORY));
      }
      SetString(Key(protocol, "socketFactory.fallback"), Some("false"));
      SetString(Key(protocol, "socketFactory.port"), GetString(properties, Key(protocol, "port")));
    }
  }
}
