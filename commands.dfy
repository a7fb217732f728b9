/**
 * The command data model of `parser.hpp` and the classifier `parseCommand`,
 * which turns the decoded words of a request into a tagged `Command`.
 */
module Commands {
  import opened Wrappers
  import opened Decimal
  import opened Resp

  /** The five command kinds; every unsupported name becomes UNKNOWN. */
  datatype CommandType = PING | ECHO | SET | GET | UNKNOWN

  datatype EchoString = EchoString(message: string)

  /** The arguments of SET; an `expireMs` of 0 means the entry never expires. */
  datatype SetParams = SetParams(key: string, value: string, expireMs: Int32)

  datatype GetKey = GetKey(key: string)

  /** The payload variant of a command: one of the three argument records. */
  datatype Payload =
    | EchoData(echo: EchoString)
    | SetData(setParams: SetParams)
    | GetData(getKey: GetKey)

  datatype Command = Command(kind: CommandType, data: Payload)

  /** The payload a command gets when none is given: the variant's first alternative, empty. */
  const NoPayload: Payload := EchoData(EchoString(""))

  /**
   * A command whose tag and payload agree: ECHO carries a message, SET its
   * parameters, GET a key, and PING and UNKNOWN the default payload.
   */
  predicate WellFormed(c: Command)
  {
    match c.kind
    case ECHO => c.data.EchoData?
    case SET => c.data.SetData?
    case GET => c.data.GetData?
    case PING => c.data == NoPayload
    case UNKNOWN => c.data == NoPayload
  }

  /** `::toupper` in the C locale: the letters a to z become A to Z, every other byte is kept. */
  function ToUpper(c: char): (u: char)
    ensures 'a' <= c <= 'z' ==> 'A' <= u <= 'Z' && u as int - 'A' as int == c as int - 'a' as int
    ensures !('a' <= c <= 'z') ==> u == c
  {
    if 'a' <= c <= 'z' then (c as int - 32) as char else c
  }

  predicate NoLowerCase(s: string)
  {
    forall i :: 0 <= i < |s| ==> !('a' <= s[i] <= 'z')
  }

  /**
   * `std::transform(s, ::toupper)`: the same length, no lower-case letter
   * left, and each byte is its upper-case form.
   */
  function Upper(s: string): (u: string)
    ensures |u| == |s| && NoLowerCase(u)
    ensures forall i :: 0 <= i < |s| ==> u[i] == ToUpper(s[i])
  {
    seq(|s|, i requires 0 <= i < |s| => ToUpper(s[i]))
  }

  /** Uppercasing leaves a string without lower-case letters as it is. */
  lemma UpperOfUpperCase(s: string)
    requires NoLowerCase(s)
    ensures Upper(s) == s
  {
  }

  datatype ParseError =
    | Framing(error: DecodeError)  // the request could not be decoded
    | BadExpiry                    // `stoi` would throw on the value after PX

  const Unknown: Command := Command(UNKNOWN, NoPayload)

  /** The words of a SET whose `PX` is followed by something `stoi` cannot read. */
  predicate BadExpiryWords(words: seq<string>)
  {
    |words| >= 5 && Upper(words[0]) == "SET" && Upper(words[3]) == "PX" && Stoi(words[4]).None?
  }

  /**
   * `parseCommand` on the decoded words. The name in the first word is matched
   * after uppercasing. A request with too few words for its command is taken
   * as UNKNOWN; a SET whose fourth word is missing has no expiry.
   */
  function Interpret(words: seq<string>): (r: Result<Command, ParseError>)
    ensures r.Ok? ==> WellFormed(r.value)
    ensures r.Err? <==> BadExpiryWords(words)
    ensures r.Err? ==> r.error == BadExpiry
  {
    if words == [] then Ok(Unknown)
    else
      var name := Upper(words[0]);
      if name == "ECHO" then
        if |words| < 2 then Ok(Unknown) else Ok(Command(ECHO, EchoData(EchoString(words[1]))))
      else if name == "PING" then Ok(Command(PING, NoPayload))
      else if name == "SET" then
        if |words| < 3 then Ok(Unknown)
        else if |words| > 3 && Upper(words[3]) == "PX" then
          if |words| < 5 then Ok(Unknown)
          else
            match Stoi(words[4])
            case None => Err(BadExpiry)
            case Some(ms) => Ok(Command(SET, SetData(SetParams(words[1], words[2], ms))))
        else Ok(Command(SET, SetData(SetParams(words[1], words[2], 0))))
      else if name == "GET" then
        if |words| < 2 then Ok(Unknown) else Ok(Command(GET, GetData(GetKey(words[1]))))
      else Ok(Unknown)
  }

  /** The command in a request buffer, as `parseCommand(buffer)` yields it. */
  function CommandOf(buffer: string): Result<Command, ParseError>
  {
    match Decode(buffer)
    case Err(e) => Err(Framing(e))
    case Ok(words) => Interpret(words)
  }

  /** `parseCommand`: decodes the buffer with a `Parser` and classifies the words. */
  method ParseCommand(buffer: string) returns (r: Result<Command, ParseError>)
    ensures r == CommandOf(buffer)
  {
    var parser := new Parser(buffer);
    var words := parser.Parse();
    if words.Err? {
      return Err(Framing(words.error));
    }
    r := Interpret(words.value);
  }

  /** The command name is matched whatever its case: `echo`, `ECHO` and `EcHo` are one command. */
  lemma InterpretIgnoresCase(a: string, b: string, args: seq<string>)
    requires Upper(a) == Upper(b)
    ensures Interpret([a] + args) == Interpret([b] + args)
  {
    assert ([a] + args)[1..] == args == ([b] + args)[1..];
  }

  /** Every first word outside ECHO, PING, SET and GET, in any case, yields UNKNOWN. */
  lemma UnsupportedIsUnknown(words: seq<string>)
    requires |words| > 0
    requires Upper(words[0]) != "ECHO" && Upper(words[0]) != "PING"
    requires Upper(words[0]) != "SET" && Upper(words[0]) != "GET"
    ensures Interpret(words) == Ok(Unknown)
  {
  }

  /**
   * For SET, a fourth word equal to `PX` in any case sets `expireMs` to what
   * `stoi` reads from the fifth word; any other fourth word, or none, leaves
   * it at 0.
   */
  lemma SetExpiry(words: seq<string>)
    requires |words| >= 3 && Upper(words[0]) == "SET"
    requires |words| > 3 && Upper(words[3]) == "PX" ==> |words| >= 5 && Stoi(words[4]).Some?
    ensures Interpret(words).Ok? && Interpret(words).value.kind == SET
    ensures var p := Interpret(words).value.data.setParams;
      && p.key == words[1] && p.value == words[2]
      && p.expireMs == if |words| > 3 && Upper(words[3]) == "PX" then Stoi(words[4]).value else 0
  {
  }

  /** Words a client sends for a command: the canonical spelling of its name and arguments. */
  function Render(c: Command): seq<string>
    requires WellFormed(c)
  {
    match c.kind
    case PING => ["PING"]
    case ECHO => ["ECHO", c.data.echo.message]
    case GET => ["GET", c.data.getKey.key]
    case UNKNOWN => ["UNKNOWN"]
    case SET =>
      var p := c.data.setParams;
      if p.expireMs == 0 then ["SET", p.key, p.value]
      else ["SET", p.key, p.value, "PX", IntToString(p.expireMs)]
  }

  /** Every well-formed command is read back from its canonical words. */
  lemma InterpretRender(c: Command)
    requires WellFormed(c)
    ensures Interpret(Render(c)) == Ok(c)
  {
    var words := Render(c);
    UpperOfUpperCase(words[0]);
    if c.kind == SET && c.data.setParams.expireMs != 0 {
      UpperOfUpperCase("PX");
      StoiOfIntToString(c.data.setParams.expireMs);
    }
  }

  /** A command encoded as a RESP request is read back by `parseCommand`, whatever follows it. */
  lemma CommandOfRequest(c: Command, rest: string)
    requires WellFormed(c) && Encodable(Render(c))
    ensures CommandOf(EncodeRequest(Render(c)) + rest) == Ok(c)
  {
    DecodeOfEncoding(Render(c), rest);
    InterpretRender(c);
  }

  /**
   * The indices of `words` that `parseCommand` reads as written, without
   * looking at how many words there are.
   */
  function IndicesRead(words: seq<string>): set<nat>
  {
    var name := if words == [] then "" else Upper(words[0]);
    if name == "ECHO" || name == "GET" then {0, 1}
    else if name == "SET" then
      if |words| > 3 && Upper(words[3]) == "PX" then {0, 1, 2, 3, 4} else {0, 1, 2, 3}
    else {0}
  }

  /** `parseCommand` as written indexes past the end of the words it was given. */
  predicate ReadsPastEnd(words: seq<string>)
  {
    exists i :: i in IndicesRead(words) && i >= |words|
  }

  /** A plain `SET key value` makes `parseCommand` as written read a fourth word that is not there. */
  lemma PlainSetReadsPastEnd(key: string, value: string)
    ensures ReadsPastEnd(["SET", key, value])
  {
    UpperOfUpperCase("SET");
    assert 3 in IndicesRead(["SET", key, value]);
  }

  /** An empty request, `*0\r\n`, makes `parseCommand` as written read a first word that is not there. */
  lemma EmptyRequestReadsPastEnd()
    ensures Decode(EncodeRequest([])) == Ok([])
    ensures ReadsPastEnd([])
  {
    DecodeOfEncoding([], "");
    assert EncodeRequest([]) + "" == EncodeRequest([]);
    assert 0 in IndicesRead([]);
  }

  /** With the length check in place, an empty request is an UNKNOWN command. */
  lemma EmptyRequestIsUnknown()
    ensures CommandOf(EncodeRequest([])) == Ok(Unknown)
  {
    DecodeOfEncoding([], "");
    assert EncodeRequest([]) + "" == EncodeRequest([]);
  }

  /** With the length check in place, a plain `SET key value` stores the value with no expiry. */
  lemma PlainSetHasNoExpiry(key: string, value: string)
    ensures Interpret(["SET", key, value]) == Ok(Command(SET, SetData(SetParams(key, value, 0))))
  {
    UpperOfUpperCase("SET");
  }
}
