/**
 * The key-value store of `server.cpp` with passive expiry, its handlers and
 * the dispatch of one parsed command per read buffer. Time is a number of
 * milliseconds passed in as `now`; each handler returns the reply it would
 * write to the client.
 */
module Server {
  import opened Wrappers
  import opened Decimal
  import opened Resp
  import opened Commands

  /** A stored value and, optionally, the time at which it stops being visible. */
  datatype Entry = Entry(value: string, expireAt: Option<int>)

  /**
   * An entry is dropped only once its expiry time lies strictly before `now`:
   * an entry without expiry never expires, and one is still live at the very
   * millisecond of its expiry.
   */
  predicate Expired(e: Entry, now: int): (expired: bool)
    ensures e.expireAt.None? ==> !expired
    ensures e.expireAt == Some(now) ==> !expired
  {
    e.expireAt.Some? && e.expireAt.value < now
  }

  /** Once expired, an entry stays expired. */
  lemma ExpiryIsPermanent(e: Entry, now: int, later: int)
    requires now <= later && Expired(e, now)
    ensures Expired(e, later)
  {
  }

  /** What a client can observe of the store at time `now`: the values of the keys not yet expired. */
  function Live(m: map<string, Entry>, now: int): map<string, string>
  {
    map k | k in m && !Expired(m[k], now) :: m[k].value
  }

  /** The fixed replies, all simple strings; the reply to UNKNOWN keeps its misspelling. */
  const OkReply: string := SimpleString("OK")
  const PongReply: string := SimpleString("PONG")
  const UnknownReply: string := SimpleString("UKNOWN COMMAND")

  /** The expiry SET stores: none for an `expireMs` of 0, otherwise `now + expireMs`. */
  function ExpiryFor(p: SetParams, now: int): Option<int>
  {
    if p.expireMs != 0 then Some(now + p.expireMs) else None
  }

  /** The store after a SET: the key's entry is replaced as a whole. */
  function AfterSet(m: map<string, Entry>, p: SetParams, now: int): map<string, Entry>
  {
    m[p.key := Entry(p.value, ExpiryFor(p, now))]
  }

  /** The reply to a GET and the store after it; an expired entry is erased on the way. */
  function AfterGet(m: map<string, Entry>, key: string, now: int): (string, map<string, Entry>)
  {
    if key !in m then (NullBulkString, m)
    else if Expired(m[key], now) then (NullBulkString, m - {key})
    else (BulkString(m[key].value), m)
  }

  /** The reply to a well-formed command and the store after it, as the dispatch table routes it. */
  function Execute(m: map<string, Entry>, cmd: Command, now: int): (string, map<string, Entry>)
    requires WellFormed(cmd)
  {
    match cmd.kind
    case PING => (PongReply, m)
    case ECHO => (SimpleString(cmd.data.echo.message), m)
    case SET => (OkReply, AfterSet(m, cmd.data.setParams, now))
    case GET => AfterGet(m, cmd.data.getKey.key, now)
    case UNKNOWN => (UnknownReply, m)
  }

  /** The terminator `handle_connection` writes after the bytes it has read. */
  const NUL: char := '\0'

  /**
   * One read buffer: the bytes read, followed by the terminator, are parsed
   * and the first request is executed. A buffer that cannot be parsed gets no
   * reply and leaves the store as it was.
   */
  function Respond(m: map<string, Entry>, buffer: string, now: int): (Option<string>, map<string, Entry>)
  {
    match CommandOf(buffer + [NUL])
    case Err(_) => (None, m)
    case Ok(cmd) =>
      var (reply, m') := Execute(m, cmd, now);
      (Some(reply), m')
  }

  /** The global `store` map and the handlers that read and update it. */
  class Store {
    var entries: map<string, Entry>

    constructor ()
      ensures entries == map[]
    {
      entries := map[];
    }

    /** `handle_set`: stores the value under the key, with an expiry when `expireMs` is not 0. */
    method HandleSet(cmd: Command, now: int) returns (reply: string)
      requires cmd.data.SetData?
      modifies this
      ensures entries == AfterSet(old(entries), cmd.data.setParams, now)
      ensures reply == OkReply
    {
      var params := cmd.data.setParams;
      var expireAt: Option<int> := None;
      if params.expireMs != 0 {
        expireAt := Some(now + params.expireMs);
      }
      var entry := Entry(params.value, expireAt);
      entries := entries[params.key := entry];
      reply := OkReply;
    }

    /** `handle_get`: replies with the value of a live key, erasing the key when it has expired. */
    method HandleGet(cmd: Command, now: int) returns (reply: string)
      requires cmd.data.GetData?
      modifies this
      ensures (reply, entries) == AfterGet(old(entries), cmd.data.getKey.key, now)
    {
      var key := cmd.data.getKey.key;
      var found := key in entries;
      if found && entries[key].expireAt.Some? && entries[key].expireAt.value < now {
        entries := entries - {key};
        found := false;
      }
      if !found {
        return NullBulkString;
      }
      var value := entries[key].value;
      reply := "$" + NatToString(|value|) + "\r\n" + value + "\r\n";
    }

    method HandlePing(cmd: Command) returns (reply: string)
      ensures reply == PongReply
    {
      reply := PongReply;
    }

    method HandleUnknown(cmd: Command) returns (reply: string)
      ensures reply == UnknownReply
    {
      reply := UnknownReply;
    }

    method HandleEcho(cmd: Command) returns (reply: string)
      requires cmd.data.EchoData?
      ensures reply == SimpleString(cmd.data.echo.message)
    {
      reply := "+" + cmd.data.echo.message + "\r\n";
    }

    /** The dispatch table: each command kind goes to its own handler. */
    method HandleCommand(cmd: Command, now: int) returns (reply: string)
      requires WellFormed(cmd)
      modifies this
      ensures (reply, entries) == Execute(old(entries), cmd, now)
    {
      match cmd.kind {
        case PING => reply := HandlePing(cmd);
        case ECHO => reply := HandleEcho(cmd);
        case SET => reply := HandleSet(cmd, now);
        case GET => reply := HandleGet(cmd, now);
        case UNKNOWN => reply := HandleUnknown(cmd);
      }
    }

    /** One pass of the connection loop: the terminated buffer is parsed and one command is handled. */
    method HandleBuffer(buffer: string, now: int) returns (reply: Option<string>)
      modifies this
      ensures (reply, entries) == Respond(old(entries), buffer, now)
    {
      var cmd := ParseCommand(buffer + [NUL]);
      if cmd.Err? {
        return None;
      }
      var text := HandleCommand(cmd.value, now);
      reply := Some(text);
    }
  }

  /** SET replaces the key's entry whole, dropping any earlier value and expiry, and no other key changes. */
  lemma SetOnlyTouchesItsKey(m: map<string, Entry>, p: SetParams, now: int)
    ensures var m' := AfterSet(m, p, now);
      && p.key in m' && m'[p.key] == Entry(p.value, ExpiryFor(p, now))
      && m'.Keys == m.Keys + {p.key}
      && forall k :: k in m && k != p.key ==> m'[k] == m[k]
  {
  }

  /** GET changes at most its own key, and only by erasing it when it has expired. */
  lemma GetOnlyTouchesItsKey(m: map<string, Entry>, key: string, now: int)
    ensures var m' := AfterGet(m, key, now).1;
      && (forall k :: k != key ==> (k in m' <==> k in m))
      && (forall k :: k in m' ==> k in m && m'[k] == m[k])
      && (key in m && !(key in m') <==> key in m && Expired(m[key], now))
  {
  }

  /** SET stores no expiry exactly when `expireMs` is 0, and otherwise `now + expireMs`. */
  lemma SetExpiryTime(m: map<string, Entry>, p: SetParams, now: int)
    ensures AfterSet(m, p, now)[p.key].expireAt.None? <==> p.expireMs == 0
    ensures p.expireMs != 0 ==> AfterSet(m, p, now)[p.key].expireAt == Some(now + p.expireMs)
  {
  }

  /** The reply to a GET is the bulk string of the key's live value, or the null bulk string. */
  lemma GetReplyIsLiveValue(m: map<string, Entry>, key: string, now: int)
    ensures AfterGet(m, key, now).0
         == if key in Live(m, now) then BulkString(Live(m, now)[key]) else NullBulkString
  {
  }

  /** Erasing an expired key is invisible: GET leaves what clients see, then and later, as it was. */
  lemma GetKeepsLiveView(m: map<string, Entry>, key: string, now: int, later: int)
    requires now <= later
    ensures Live(AfterGet(m, key, now).1, later) == Live(m, later)
  {
    var m' := AfterGet(m, key, now).1;
    forall k | k in m && !Expired(m[k], later)
      ensures k in m' && m'[k] == m[k]
    {
    }
  }

  /** After SET, what clients see changes at the key alone: its value while unexpired, nothing after. */
  lemma SetLiveView(m: map<string, Entry>, p: SetParams, now: int, later: int)
    ensures Live(AfterSet(m, p, now), later)
         == if p.expireMs == 0 || later <= now + p.expireMs then Live(m, later)[p.key := p.value]
            else Live(m, later) - {p.key}
  {
  }

  /**
   * A GET after a SET of the same key returns the value set until `now +
   * expireMs`, inclusive, and the null bulk string after it.
   */
  lemma SetThenGet(m: map<string, Entry>, p: SetParams, now: int, later: int)
    ensures AfterGet(AfterSet(m, p, now), p.key, later).0
         == if p.expireMs == 0 || later <= now + p.expireMs then BulkString(p.value) else NullBulkString
  {
  }

  /** PING, ECHO and UNKNOWN leave the store unchanged. */
  lemma RepliesWithoutStateChange(m: map<string, Entry>, cmd: Command, now: int)
    requires WellFormed(cmd) && (cmd.kind == PING || cmd.kind == ECHO || cmd.kind == UNKNOWN)
    ensures Execute(m, cmd, now).1 == m
  {
  }

  /** Only the first request of a buffer is executed; a second request behind it is ignored. */
  lemma LaterRequestIgnored(m: map<string, Entry>, c: Command, rest: string, now: int)
    requires WellFormed(c) && Encodable(Render(c))
    ensures Respond(m, EncodeRequest(Render(c)) + rest, now) == (Some(Execute(m, c, now).0), Execute(m, c, now).1)
  {
    CommandOfRequest(c, rest + [NUL]);
    assert EncodeRequest(Render(c)) + rest + [NUL] == EncodeRequest(Render(c)) + (rest + [NUL]);
  }

  /**
   * A word one byte short of its declared length takes the terminator as its
   * last byte: `*1\r\n$4\r\nPIN` is read as the word `PIN` followed by NUL,
   * an unsupported name, and is answered as UNKNOWN.
   */
  lemma ShortWordTakesTerminator(m: map<string, Entry>, now: int)
    ensures Respond(m, "*1\r\n$4\r\nPIN", now) == (Some(UnknownReply), m)
  {
    assert "*1\r\n$4\r\nPIN" + [NUL] == "*1\r\n$4\r\nPIN\0";
    TerminatedShortWord();
    TerminatedNameIsUnknown();
  }

  /** `PIN` followed by NUL is none of the supported names. */
  lemma TerminatedNameIsUnknown()
    ensures Interpret(["PIN\0"]) == Ok(Unknown)
  {
    var w := "PIN\0";
    UpperOfUpperCase(w);
    assert w[3] != "PING"[3];
  }

  /** The four bytes the length field of `*1\r\n$4\r\nPIN` asks for are `PIN` and the terminator. */
  lemma TerminatedShortWord()
    ensures Decode("*1\r\n$4\r\nPIN\0") == Ok(["PIN\0"])
  {
    var s := "*1\r\n$4\r\nPIN\0";
    FindFirst(s, 1, 2, '\r');
    FindFirst(s, 5, 6, '\r');
    StoiOfNatToString(1);
    StoiOfNatToString(4);
    assert s[1..2] == NatToString(1) && s[5..6] == NatToString(4);
    assert ReadCount(s, 0) == Ok((1, 2));
    ReadWordSucceeds(s, 2, 6, 4, s[8..12], 12);
    DecodeWordsCons(s, 2, 1, s[8..12], 12, []);
    assert [s[8..12]] + [] == [s[8..12]];
    assert s[8..12] == "PIN\0";
  }

  /** An encoded SET request, alone in its buffer, is answered `+OK` and stores its value. */
  lemma SetOverTheWire(m: map<string, Entry>, p: SetParams, now: int)
    requires |p.key| <= INT_MAX && |p.value| <= INT_MAX
    ensures Respond(m, EncodeRequest(Render(Command(SET, SetData(p)))), now) == (Some(OkReply), AfterSet(m, p, now))
  {
    var c := Command(SET, SetData(p));
    IntToStringLength(p.expireMs);
    LaterRequestIgnored(m, c, "", now);
    assert EncodeRequest(Render(c)) + "" == EncodeRequest(Render(c));
  }

  /** An encoded GET request, alone in its buffer, is answered as `handle_get` answers it. */
  lemma GetOverTheWire(m: map<string, Entry>, key: string, now: int)
    requires |key| <= INT_MAX
    ensures Respond(m, EncodeRequest(Render(Command(GET, GetData(GetKey(key))))), now)
         == (Some(AfterGet(m, key, now).0), AfterGet(m, key, now).1)
  {
    var c := Command(GET, GetData(GetKey(key)));
    LaterRequestIgnored(m, c, "", now);
    assert EncodeRequest(Render(c)) + "" == EncodeRequest(Render(c));
  }

  /** The SET-then-GET behaviour seen over the wire, from two encoded requests. */
  lemma ExpiryOverTheWire(m: map<string, Entry>, key: string, value: string, ms: Int32, now: int, later: int)
    requires |key| <= INT_MAX && |value| <= INT_MAX
    ensures var setCmd := Command(SET, SetData(SetParams(key, value, ms)));
      var getCmd := Command(GET, GetData(GetKey(key)));
      var afterSet := Respond(m, EncodeRequest(Render(setCmd)), now);
      var afterGet := Respond(afterSet.1, EncodeRequest(Render(getCmd)), later);
      && afterSet.0 == Some(OkReply)
      && afterGet.0 == Some(if ms == 0 || later <= now + ms then BulkString(value) else NullBulkString)
  {
    var p := SetParams(key, value, ms);
    SetOverTheWire(m, p, now);
    GetOverTheWire(AfterSet(m, p, now), key, later);
    SetThenGet(m, p, now, later);
  }

  /** The fixed replies are simple strings a client reads as OK, PONG and UKNOWN COMMAND. */
  lemma FixedReplies()
    ensures DecodeReply(OkReply) == Some(Simple("OK"))
    ensures DecodeReply(PongReply) == Some(Simple("PONG"))
    ensures DecodeReply(UnknownReply) == Some(Simple("UKNOWN COMMAND"))
  {
    DecodeOfEncodeReply(Simple("OK"));
    DecodeOfEncodeReply(Simple("PONG"));
    DecodeOfEncodeReply(Simple("UKNOWN COMMAND"));
  }

  /** The RESP value a client should read back for a command run on the store as it stands. */
  function ExpectedReply(m: map<string, Entry>, cmd: Command, now: int): Reply
    requires WellFormed(cmd)
  {
    match cmd.kind
    case PING => Simple("PONG")
    case ECHO => Simple(cmd.data.echo.message)
    case SET => Simple("OK")
    case UNKNOWN => Simple("UKNOWN COMMAND")
    case GET =>
      var live := Live(m, now);
      var key := cmd.data.getKey.key;
      if key in live then Bulk(live[key]) else Null
  }

  /**
   * Every reply the server writes is read by a client as the expected RESP
   * value, provided an echoed message holds no line break.
   */
  lemma RepliesReadBack(m: map<string, Entry>, cmd: Command, now: int)
    requires WellFormed(cmd)
    requires cmd.kind == ECHO ==> NoLineBreak(cmd.data.echo.message)
    ensures DecodeReply(Execute(m, cmd, now).0) == Some(ExpectedReply(m, cmd, now))
  {
    match cmd.kind
    case ECHO => DecodeOfEncodeReply(Simple(cmd.data.echo.message));
    case GET =>
      var key := cmd.data.getKey.key;
      GetReplyIsLiveValue(m, key, now);
      if key in Live(m, now) {
        DecodeOfEncodeReply(Bulk(Live(m, now)[key]));
      } else {
        DecodeOfEncodeReply(Null);
      }
    case _ => FixedReplies();
  }
}
