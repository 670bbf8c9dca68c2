/**
 * `MailReceiver`: the builder fields and the receive loop of `execute()`.
 * The store, the folder and the callback are foreign; the model records
 * what `execute` asks of them as a trace of events, and takes what they
 * answer (how far the opening gets, what each callback returns and does
 * to its loader's delete flag) as parameters.
 */
module Receiver {
  import opened Wrappers
  import opened JavaStrings
  import opened Mime
  import Properties
  import Loader

  /** The folder name used unless another non-blank one is set. */
  const DEFAULT_FOLDER_NAME: string := "INBOX"

  /** `Folder.READ_ONLY` and `Folder.READ_WRITE`. */
  datatype Mode = READ_ONLY | READ_WRITE

  /** What `execute` asks of the store, the folder and the messages. */
  datatype Event =
    | Connect(protocol: string)
    | OpenFolder(name: string, mode: Mode)
    | FlagDeleted(index: nat)
    | CloseFolder(expunge: bool)
    | CloseStore

  /** How far the opening gets before the loop: `getStore`, then `connect`/`getFolder`, then `open`. */
  datatype Opening = NoStore | ConnectFails | OpenFails | Opened

  /** How `callback.iterate(loader)` ends: true, false, or an exception. */
  datatype Outcome = Continue | Break | Throw

  /**
   * One call of the callback: how it ends, and the last value it passed to
   * `loader.deleted(...)` (None when it left the flag alone).
   */
  datatype Reply = Reply(outcome: Outcome, setDeleted: Option<bool>)

  /** The flags the loop sets, and whether an exception left it. */
  datatype Loop = Loop(events: seq<Event>, thrown: bool)

  /** What `execute` did in all, and whether it ended by an exception. */
  datatype Run = Run(events: seq<Event>, thrown: bool)

  /** The mode the folder is opened in. */
  function ModeOf(readonly: bool): (m: Mode)
    ensures m == READ_ONLY <==> readonly
  {
    if readonly then READ_ONLY else READ_WRITE
  }

  /** The loader's delete flag once the callback is done: it starts as `!readonly`. */
  function DeleteFlag(reply: Reply, readonly: bool): bool {
    if reply.setDeleted.Some? then reply.setDeleted.value else !readonly
  }

  /** `flags` set first, then what `l` does. */
  function Then(flags: seq<Event>, l: Loop): Loop {
    Loop(flags + l.events, l.thrown)
  }

  /** Setting flags `a` and then `b` before a loop is setting `a + b` before it. */
  lemma ThenThen(a: seq<Event>, b: seq<Event>, l: Loop)
    ensures Then(a, Then(b, l)) == Then(a + b, l)
  {
    assert a + (b + l.events) == (a + b) + l.events;
  }

  /**
   * The loop over the messages from index `i` on: each message gets a
   * loader, its DELETED flag is set when the folder is writable and the
   * loader's flag is on, and a false answer stops the loop after that.
   */
  function Iterate(readonly: bool, n: nat, callback: nat -> Reply, i: nat): Loop
    decreases n - i
  {
    if i >= n then Loop([], false)
    else
      var reply := callback(i);
      if reply.outcome == Throw then Loop([], true)
      else if reply.outcome == Break then Loop(FlagOf(readonly, reply, i), false)
      else Then(FlagOf(readonly, reply, i), Iterate(readonly, n, callback, i + 1))
  }

  /** The DELETED flag the loop sets on message `i`, if any. */
  function FlagOf(readonly: bool, reply: Reply, i: nat): (r: seq<Event>)
    ensures r == [FlagDeleted(i)] || r == []
    ensures FlagDeleted(i) in r <==> !readonly && DeleteFlag(reply, readonly)
  {
    if !readonly && DeleteFlag(reply, readonly) then [FlagDeleted(i)] else []
  }

  /** One step of the loop at message `i`. */
  lemma IterateAt(readonly: bool, n: nat, callback: nat -> Reply, i: nat)
    requires i < n
    ensures callback(i).outcome == Throw ==> Iterate(readonly, n, callback, i) == Loop([], true)
    ensures callback(i).outcome == Break ==>
      Iterate(readonly, n, callback, i) == Loop(FlagOf(readonly, callback(i), i), false)
    ensures callback(i).outcome == Continue ==>
      Iterate(readonly, n, callback, i) == Then(FlagOf(readonly, callback(i), i), Iterate(readonly, n, callback, i + 1))
  {
  }

  /**
   * How many of the first `n` messages the callback sees, starting at `i`:
   * up to and including the first that does not answer true.
   */
  function Visited(n: nat, callback: nat -> Reply, i: nat): (v: nat)
    requires i <= n
    ensures i <= v <= n
    ensures forall j :: i <= j < v - 1 ==> callback(j).outcome == Continue
    ensures i < n ==> i < v
    ensures i < v < n ==> callback(v - 1).outcome != Continue
    decreases n - i
  {
    if i == n then i
    else if callback(i).outcome != Continue then i + 1
    else Visited(n, callback, i + 1)
  }

  /**
   * `execute()` as written: the `finally` block closes the folder whenever
   * `getFolder` returned one, opened or not. JavaMail's folders refuse to
   * close when they are not open, with an `IllegalStateException` that the
   * `catch (MessagingException e)` around `folder.close` lets through, so a
   * failed `open` also skips `store.close()`.
   */
  function SessionAsWritten(protocol: string, folderName: string, readonly: bool, opening: Opening,
                            n: nat, callback: nat -> Reply): Run
  {
    if opening == OpenFails then
      Run([Connect(protocol), OpenFolder(folderName, ModeOf(readonly)), CloseFolder(!readonly)], true)
    else Session(protocol, folderName, readonly, opening, n, callback)
  }

  /** As written, a folder that fails to open leaves its store connected. */
  lemma OpenFailureLeavesStoreOpen(protocol: string, folderName: string, readonly: bool,
                                   n: nat, callback: nat -> Reply)
    ensures var r := SessionAsWritten(protocol, folderName, readonly, OpenFails, n, callback);
      CloseStore !in r.events && Connect(protocol) in r.events
    ensures Session(protocol, folderName, readonly, OpenFails, n, callback).events
      == [Connect(protocol), OpenFolder(folderName, ModeOf(readonly)), CloseStore]
  {
    var r := SessionAsWritten(protocol, folderName, readonly, OpenFails, n, callback);
    assert r.events[0] == Connect(protocol);
  }

  /**
   * `execute()` as a whole, as evidently intended: open, loop, and on every
   * path close what was opened (the folder only once it is open, as
   * `folder.isOpen()` would test).
   */
  function Session(protocol: string, folderName: string, readonly: bool, opening: Opening,
                   n: nat, callback: nat -> Reply): Run
  {
    match opening
    case NoStore => Run([], true)
    case ConnectFails => Run([Connect(protocol), CloseStore], true)
    case OpenFails =>
      Run([Connect(protocol), OpenFolder(folderName, ModeOf(readonly)), CloseStore], true)
    case Opened =>
      var l := Iterate(readonly, n, callback, 0);
      Run([Connect(protocol), OpenFolder(folderName, ModeOf(readonly))] + l.events
          + [CloseFolder(!readonly), CloseStore], l.thrown)
  }

  /**
   * A message is flagged exactly when the callback saw it, did not throw,
   * the folder is writable and the loader's flag is on; the message whose
   * callback answered false is included.
   */
  lemma {:induction false} IterateFlags(readonly: bool, n: nat, callback: nat -> Reply, i: nat, k: nat)
    requires i <= n
    ensures FlagDeleted(k) in Iterate(readonly, n, callback, i).events <==>
      i <= k < Visited(n, callback, i) && !readonly && DeleteFlag(callback(k), readonly)
      && callback(k).outcome != Throw
    decreases n - i
  {
    if i < n && callback(i).outcome == Continue {
      IterateFlags(readonly, n, callback, i + 1, k);
    }
  }

  /** The loop emits nothing but flags. */
  lemma {:induction false} IterateOnlyFlags(readonly: bool, n: nat, callback: nat -> Reply, i: nat)
    ensures forall e :: e in Iterate(readonly, n, callback, i).events ==> e.FlagDeleted?
    decreases n - i
  {
    if i < n && callback(i).outcome == Continue {
      IterateOnlyFlags(readonly, n, callback, i + 1);
    }
  }

  /** The loop ends by an exception exactly when the last message it visited threw. */
  lemma {:induction false} IterateThrows(readonly: bool, n: nat, callback: nat -> Reply, i: nat)
    requires i <= n
    ensures Iterate(readonly, n, callback, i).thrown <==>
      i < n && callback(Visited(n, callback, i) - 1).outcome == Throw
    decreases n - i
  {
    if i < n && callback(i).outcome == Continue {
      IterateThrows(readonly, n, callback, i + 1);
    }
  }

  /** The flags a session sets are those of its loop. */
  lemma SessionFlags(protocol: string, folderName: string, readonly: bool, opening: Opening,
                     n: nat, callback: nat -> Reply, k: nat)
    ensures FlagDeleted(k) in Session(protocol, folderName, readonly, opening, n, callback).events <==>
      opening == Opened && k < Visited(n, callback, 0) && !readonly
      && DeleteFlag(callback(k), readonly) && callback(k).outcome != Throw
  {
    var r := Session(protocol, folderName, readonly, opening, n, callback);
    IterateFlags(readonly, n, callback, 0, k);
    if opening == Opened {
      var l := Iterate(readonly, n, callback, 0);
      assert r.events == [Connect(protocol), OpenFolder(folderName, ModeOf(readonly))] + l.events
        + [CloseFolder(!readonly), CloseStore];
    }
  }

  /** In readonly mode no message is flagged and the folder is opened READ_ONLY and closed without expunge. */
  lemma ReadonlyChangesNothing(protocol: string, folderName: string, opening: Opening,
                               n: nat, callback: nat -> Reply)
    ensures var r := Session(protocol, folderName, true, opening, n, callback);
      && (forall k: nat :: FlagDeleted(k) !in r.events)
      && (forall e :: e in r.events && e.OpenFolder? ==> e.mode == READ_ONLY)
      && (forall e :: e in r.events && e.CloseFolder? ==> !e.expunge)
  {
    var r := Session(protocol, folderName, true, opening, n, callback);
    forall k: nat
      ensures FlagDeleted(k) !in r.events
    {
      SessionFlags(protocol, folderName, true, opening, n, callback, k);
    }
    if opening == Opened {
      var l := Iterate(true, n, callback, 0);
      IterateOnlyFlags(true, n, callback, 0);
      assert r.events == [Connect(protocol), OpenFolder(folderName, READ_ONLY)] + l.events
        + [CloseFolder(false), CloseStore];
    }
  }

  /**
   * On every path that got a store, the last thing done is closing it; when
   * the folder was opened, it is closed just before, expunging exactly when
   * the folder is writable, and an unopened folder is never closed.
   */
  lemma ClosesOnEveryPath(protocol: string, folderName: string, readonly: bool, opening: Opening,
                          n: nat, callback: nat -> Reply)
    ensures var r := Session(protocol, folderName, readonly, opening, n, callback);
      && (opening == NoStore <==> r.events == [])
      && (opening != NoStore ==> r.events[|r.events| - 1] == CloseStore)
      && (opening == Opened ==> r.events[|r.events| - 2] == CloseFolder(!readonly))
      && (opening != Opened ==> forall e :: e in r.events ==> !e.CloseFolder?)
      && (opening != Opened ==> r.thrown)
  {
  }

  /**
   * In read-write mode, a callback that answers true and never touches the
   * flag has every message deleted.
   */
  lemma ReadWriteDeletesByDefault(protocol: string, folderName: string, n: nat, callback: nat -> Reply)
    requires forall j :: callback(j) == Reply(Continue, None)
    ensures var r := Session(protocol, folderName, false, Opened, n, callback);
      forall k: nat :: FlagDeleted(k) in r.events <==> k < n
  {
    forall k: nat
      ensures FlagDeleted(k) in Session(protocol, folderName, false, Opened, n, callback).events <==> k < n
    {
      SessionFlags(protocol, folderName, false, Opened, n, callback, k);
      if 0 < n {
        assert callback(Visited(n, callback, 0) - 1).outcome == Continue;
      }
    }
  }

  /** `MailReceiver`. */
  class MailReceiver {
    const properties: Properties.MailProperties
    var isDebug: bool
    var useDefaultSession: bool
    var folderName: string
    var readonly: bool

    /** The folder name is never blank. */
    ghost predicate Valid()
      reads this
    {
      IsNotBlank(Some(folderName))
    }

    /** The constructor: folder INBOX, read only, no debug, the default session. */
    constructor(properties: Properties.MailProperties)
      ensures Valid() && this.properties == properties
      ensures folderName == DEFAULT_FOLDER_NAME && readonly
      ensures !isDebug && useDefaultSession
    {
      this.properties := properties;
      isDebug := false;
      useDefaultSession := true;
      folderName := DEFAULT_FOLDER_NAME;
      readonly := true;
      NotBlankByFirst(DEFAULT_FOLDER_NAME);
    }

    /** `debug(isDebug)`. */
    method Debug(isDebug: bool)
      modifies this`isDebug
      ensures this.isDebug == isDebug
    {
      this.isDebug := isDebug;
    }

    /** `useDefaultSession(useDefaultSession)`. */
    method UseDefaultSession(useDefaultSession: bool)
      modifies this`useDefaultSession
      ensures this.useDefaultSession == useDefaultSession
    {
      this.useDefaultSession := useDefaultSession;
    }

    /** `folderName(folderName)`: a blank or null name is ignored. */
    method FolderName(folderName: Option<string>)
      requires Valid()
      modifies this`folderName
      ensures Valid()
      ensures this.folderName == if IsNotBlank(folderName) then folderName.value else old(this.folderName)
    {
      if IsNotBlank(folderName) {
        this.folderName := folderName.value;
      }
    }

    /** `readonly(readonly)`. */
    method Readonly(readonly: bool)
      modifies this`readonly
      ensures this.readonly == readonly
    {
      this.readonly := readonly;
    }

    /**
     * `new MessageLoader(message, !readonly)` handed to a callback that ends
     * normally: the loader's delete flag once the callback is done.
     */
    method HandOver(message: MimeNode, reply: Reply, mail: JavaMail) returns (isDeleted: bool)
      ensures isDeleted == DeleteFlag(reply, readonly)
    {
      var loader := new Loader.MessageLoader.WithDeleted(message, mail, !readonly);
      if reply.setDeleted.Some? {
        loader.Deleted(reply.setDeleted.value);
      }
      isDeleted := loader.IsDeleted();
    }

    /** The `for` loop of `execute()` over the folder's messages. */
    method ReceiveMessages(messages: seq<MimeNode>, callback: nat -> Reply, mail: JavaMail)
      returns (flags: seq<Event>, thrown: bool)
      ensures Loop(flags, thrown) == Iterate(readonly, |messages|, callback, 0)
    {
      ghost var n := |messages|;
      ghost var goal := Iterate(readonly, n, callback, 0);
      flags, thrown := [], false;
      var i := 0;
      while i < |messages|
        invariant 0 <= i <= n
        invariant goal == Then(flags, Iterate(readonly, n, callback, i))
      {
        ghost var before := flags;
        var reply := callback(i);
        IterateAt(readonly, n, callback, i);
        if reply.outcome == Throw {
          thrown := true;
          break;
        }
        var isDeleted := HandOver(messages[i], reply, mail);
        ghost var rest := Iterate(readonly, n, callback, i + 1);
        ThenThen(flags, FlagOf(readonly, reply, i), rest);
        if !readonly && isDeleted {
          flags := flags + [FlagDeleted(i)];
        }
        assert flags == before + FlagOf(readonly, reply, i);
        if reply.outcome == Break {
          break;
        }
        i := i + 1;
      }
    }

    /**
     * `execute(callback)` over the folder's `messages`: hands each message
     * to the callback in a loader whose delete flag starts as `!readonly`,
     * flags it DELETED when the folder is writable and the flag is still on,
     * stops after the first false answer or exception, and closes the
     * folder, when it was opened, and then the store.
     */
    method Execute(opening: Opening, messages: seq<MimeNode>, callback: nat -> Reply, mail: JavaMail)
      returns (events: seq<Event>, thrown: bool)
      ensures Run(events, thrown) ==
        Session(properties.protocol, folderName, readonly, opening, |messages|, callback)
    {
      if opening == NoStore {
        return [], true;
      }
      events := [Connect(properties.protocol)];
      thrown := false;
      if opening == ConnectFails {
        thrown := true;
      } else {
        events := events + [OpenFolder(folderName, ModeOf(readonly))];
        if opening == OpenFails {
          thrown := true;
        } else {
          var flags;
          flags, thrown := ReceiveMessages(messages, callback, mail);
          events := events + flags + [CloseFolder(!readonly)];
        }
      }
      events := events + [CloseStore];
    }
  }
}
