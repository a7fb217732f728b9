# A verified model of a small Redis clone

This project models the request path of a small Redis server written in C++.
The path has three stages:

1. A cursor-based RESP decoder (`Parser`: `until_char`, `take`, `parse`) turns
   a request buffer into a list of words. A request is framed as an array of
   bulk strings: `*<N>\r\n`, then N copies of `$<L>\r\n<L bytes>\r\n`. These
   are the "Arrays" and "Bulk strings" sections of the RESP2 protocol.
2. `parseCommand` classifies the words into a tagged `Command`: PING, ECHO,
   SET with an optional `PX <ms>`, GET, or UNKNOWN.
3. A key-value `store` with passive expiry executes the command, and one
   handler per command kind returns the reply.

The files follow the program's structure:

- `wrappers.dfy`: `Option` and `Result`.
- `decimal.dfy`: `std::stoi` and `std::to_string`. Every count, length and
  expiry is read by `stoi`, and the length of a bulk reply is written by
  `to_string`. `stoi` is a character-by-character scan. It skips leading white
  space, accepts one sign, needs at least one digit, and ignores the rest of
  the string. A value outside the 32-bit `int` range is a failure.
- `resp.dfy`: the `Parser` class, with an immutable `input` and a mutable
  `cursor`. Its methods are proved equal to the specification functions
  `Find`, `ReadWord`, `ReadCount`, `DecodeWords` and `DecodeFrom`. The file
  also has the encoder a client uses (`EncodeRequest`), the server's reply
  forms, and a reply reader with the round-trip lemmas.
- `commands.dfy`: the data model of `parser.hpp`, `Interpret` (the classifier
  of `parseCommand`) and the method `ParseCommand`.
- `server.dfy`: the `Store` class, a map from keys to `Entry` values updated
  in place by its handler methods. Each handler equals a pure step function
  (`AfterSet`, `AfterGet`, `Execute`, `Respond`). Lemmas about those functions
  give the frame conditions, the expiry behaviour and the replies a client
  reads back.

A Dafny `char` stands for one byte of the C++ `char` buffer, so every length
counts bytes, and `::toupper` is the C-locale mapping of `a`-`z` to `A`-`Z`.

The decoder reads the bytes received followed by the NUL terminator that
`handle_connection` writes after them (app/server.cpp:116), since `take`
and `until_char` do not stop at NUL. A word one byte short of its declared
length takes the terminator as its last byte: `*1\r\n$4\r\nPIN` is the word
`PIN` followed by NUL, and the reply is `+UKNOWN COMMAND\r\n`. A read past the
terminator reaches bytes the model does not know, and `stoi` can throw. In
those cases the model returns an error value. The decoder skips delimiters by
position without checking them, exactly as the cursor arithmetic does. Only
the reads it makes are checked.

Time is a parameter `now`, an integer number of milliseconds. Each handler
returns its reply string instead of writing it to a socket.

## Model

| member | source | states |
|---|---|---|
| Decimal.Stoi | app/parser.cpp:20 | `stoi` on a count, length or expiry field (also lines 24 and 70). It skips leading white space, allows one sign, needs a digit, and ignores what follows the digits; a value outside `int` is a failure. the definition is the scan `Scan`, whose properties the lemmas below state |
| Decimal.StoiOfPlainText | app/parser.cpp:24 | a plain run of digits reads as its decimal value when it fits in `int`, and a string without a digit fails |
| Decimal.NatToString | app/server.cpp:83 | `to_string` of a length is a non-empty run of digits whose decimal value is the length, with no leading zero |
| Decimal.StoiOfDigits | app/parser.cpp:20 | after an optional sign, `stoi` reads a run of digits as its decimal value when that fits in an `int`, and fails otherwise |
| Decimal.StoiOfNatToString | app/parser.cpp:24 | `stoi` reads back every non-negative `int` that `to_string` writes |
| Decimal.StoiOfIntToString | app/parser.cpp:70 | `stoi` reads back the signed spelling of every `int` |
| Resp.Find | app/parser.cpp:46-49 | a found position is at or after the start and holds the delimiter; no result means no position from the start on holds it |
| Resp.FindIsFirst | app/parser.cpp:46-49 | no position the scan passes over holds the delimiter, so the found one is the first |
| Resp.Parser.constructor | app/parser.cpp:14 | the parser starts with its cursor at the first character of the input |
| Resp.Parser.UntilChar | app/parser.cpp:44-51 | it succeeds exactly when a delimiter lies ahead; the cursor then stands on the first one, and the result is the text skipped, which holds no delimiter; on failure the cursor ends at the end of the input |
| Resp.Parser.Take | app/parser.cpp:34-41 | for `n >= 0` within the input, the result is the next `n` characters and the cursor moves by exactly `n`; a negative `n` or a read past the end fails |
| Resp.Parser.NextCount | app/parser.cpp:19-20 | skipping `*` and reading to `\r` gives the request's count as `ReadCount` states it, or the same error |
| Resp.Parser.NextWord | app/parser.cpp:23-27 | one pass of the loop reads the word and leaves the cursor where `ReadWord` says, or fails as `ReadWord` does |
| Resp.Parser.Parse | app/parser.cpp:17-31 | `parse` returns exactly `DecodeFrom(input, cursor)`: the count, then that many words in order, or the first error |
| Resp.DecodeWords | app/parser.cpp:22-28 | a successful read of `n` words returns exactly `n` words |
| Resp.DecodeHasDeclaredCount | app/parser.cpp:19-22 | a decoded request has exactly as many words as the count after its `*` |
| Resp.ReadWordShape | app/parser.cpp:24-26 | each word has the length that `stoi` reads from its `$<L>` field, and it is the characters two places after that field's `\r` |
| Resp.DecodeWordsInOrder | app/parser.cpp:27 | the first word returned is the first word in the input, and the rest are the words that follow it, in order |
| Resp.DecodeOfEncoding | app/parser.cpp:17-31 | decoding `*N\r\n$L1\r\nw1\r\n...` gives back the word list, whatever follows the request in the buffer |
| Resp.EncodeRequestInjective | app/parser.cpp:17-31 | two word lists with the same request encoding are equal |
| Resp.DecodeOfEncodeReply | app/server.cpp:56-101 | a client reads each reply form the server writes (simple string, bulk string, null bulk string) back as itself |
| Commands.Interpret | app/parser.cpp:54-78 | the command is well formed, with its tag matching its payload; the result is an error exactly when PX is followed by a value `stoi` cannot read |
| Commands.ParseCommand | app/parser.cpp:54-56 | `parseCommand(buffer)` decodes with a `Parser` and classifies the words, giving `CommandOf(buffer)` |
| Commands.ToUpper | app/parser.cpp:58 | C-locale `::toupper`: `a`-`z` become the matching `A`-`Z`, every other byte is kept |
| Commands.Upper | app/parser.cpp:66-67 | `std::transform(..., ::toupper)`, applied to the name (line 58) and to the fourth word: the same length, no lower-case letter left, each byte uppercased |
| Commands.InterpretIgnoresCase | app/parser.cpp:57-74 | two first words with the same uppercase form give the same command |
| Commands.UnsupportedIsUnknown | app/parser.cpp:75-76 | a first word that is none of ECHO, PING, SET and GET in any case gives UNKNOWN |
| Commands.SetExpiry | app/parser.cpp:63-72 | SET carries its key and value; `expireMs` is the `stoi` value of the fifth word when the fourth is `PX` in any case, and 0 otherwise |
| Commands.InterpretRender | app/parser.cpp:54-78 | every well-formed command is produced from its canonical words |
| Commands.CommandOfRequest | app/parser.cpp:54-78 | a command encoded as a RESP request is parsed back as itself |
| Commands.PlainSetReadsPastEnd | app/parser.cpp:66 | as written, a plain `SET key value` reads a fourth word that the request does not have |
| Commands.PlainSetHasNoExpiry | app/parser.cpp:63-72 | with the length check, `SET key value` stores the value with no expiry |
| Commands.EmptyRequestReadsPastEnd | app/parser.cpp:57 | `*0\r\n` decodes to no words, and as written `parseCommand` then reads a first word that is not there |
| Commands.EmptyRequestIsUnknown | app/parser.cpp:75-76 | with the length check, the empty request `*0\r\n` is UNKNOWN |
| Server.Expired | app/server.cpp:69 | an entry is expired only when it has an expiry time strictly before `now`; an entry without expiry never expires, and one is still live at the millisecond of its expiry |
| Server.ExpiryIsPermanent | app/server.cpp:69 | an entry expired at some time is expired at every later time |
| Server.Store.constructor | app/server.cpp:26 | the store starts empty |
| Server.Store.HandleSet | app/server.cpp:43-57 | the store becomes `AfterSet` of the old store, and the reply is `+OK\r\n` |
| Server.Store.HandleGet | app/server.cpp:59-85 | the reply and the new store are `AfterGet` of the old store |
| Server.Store.HandlePing | app/server.cpp:87-91 | the reply is `+PONG\r\n` |
| Server.Store.HandleUnknown | app/server.cpp:93-97 | the reply is `+UKNOWN COMMAND\r\n`, misspelling included |
| Server.Store.HandleEcho | app/server.cpp:99-104 | the reply is `+`, the message, then `\r\n` |
| Server.Store.HandleCommand | app/server.cpp:119-129 | each command kind goes to its own handler; reply and new store are `Execute` of the old store |
| Server.Store.HandleBuffer | app/server.cpp:116-129 | the bytes read, followed by the NUL terminator, are parsed into one command, which is handled: reply and new store are `Respond` of the old store |
| Server.SetOnlyTouchesItsKey | app/server.cpp:54-55 | after SET the key's entry is exactly the new value with the new expiry, replacing any earlier one; the key set grows by the key alone, and every other entry is unchanged |
| Server.SetExpiryTime | app/server.cpp:46-52 | SET stores no expiry exactly when `expireMs` is 0, and otherwise stores `now + expireMs` |
| Server.GetOnlyTouchesItsKey | app/server.cpp:69-73 | GET leaves every other key as it was, and removes its own key exactly when that key is present and expired |
| Server.GetReplyIsLiveValue | app/server.cpp:66-84 | GET replies with the bulk string of the key's live value, or `$-1\r\n` when the key is absent or expired (expiry strictly before `now`) |
| Server.GetKeepsLiveView | app/server.cpp:69-73 | erasing an expired key changes nothing a client can see, at that time or later |
| Server.SetLiveView | app/server.cpp:43-57 | after SET, the visible store differs only at the key: the new value until `now + expireMs` inclusive, and nothing after that |
| Server.SetThenGet | app/server.cpp:43-85 | a GET after a SET of the same key returns the value up to `now + expireMs` inclusive, and `$-1\r\n` after that |
| Server.RepliesWithoutStateChange | app/server.cpp:87-104 | PING, ECHO and UNKNOWN leave the store unchanged |
| Server.LaterRequestIgnored | app/server.cpp:128-129 | only the first request in a buffer is executed; whatever follows it is ignored |
| Server.ShortWordTakesTerminator | app/server.cpp:116 | a word one byte short of its length takes the NUL terminator: `*1\r\n$4\r\nPIN` is answered `+UKNOWN COMMAND\r\n` and leaves the store unchanged |
| Server.SetOverTheWire | app/server.cpp:119-129 | an encoded SET request is answered `+OK\r\n` and updates the store as `handle_set` does |
| Server.GetOverTheWire | app/server.cpp:119-129 | an encoded GET request is answered as `handle_get` answers it |
| Server.ExpiryOverTheWire | app/server.cpp:119-129 | for two encoded requests, SET then GET, the GET sees the value up to the expiry time and the null bulk string after it |
| Server.FixedReplies | app/server.cpp:56-95 | a client reads the fixed replies as the simple strings OK, PONG and UKNOWN COMMAND |
| Server.RepliesReadBack | app/server.cpp:43-104 | every reply is read by a client as the RESP value expected for the command on the current store, provided an echoed message has no CR or LF |

## Left out

- Sockets, `main`, `accept`, `std::async` and the threads that share the store without a lock. The store is used sequentially.
- `write_message`: the `write(2)` call and its logging. Each handler returns its reply instead. `write_message` sends the reply up to its first NUL character (`strlen`); the model does not truncate replies that contain a NUL.
- The `read` into the 1024-byte buffer, including the write of the terminator one past the end when `read` returns 1024 bytes. The buffer is modelled as the bytes read followed by the NUL terminator; the bytes after the terminator, left over from earlier reads or never written, are not modelled.
- The clock. `system_clock::now()` becomes a parameter `now` in milliseconds. Overflow of the clock arithmetic is not modelled.
- `printf`, `std::cout` and `std::cerr` logging.
- Resp.Parser.Parse: where the C++ reads past the NUL terminator (no `\r` before it, a word more than one byte longer than the rest of the input, a negative count or length), it reads bytes left in the buffer or memory beyond it. The model returns `Err` instead of modelling those bytes.
- Resp.Parser.Parse: `stoi` throwing on a count or length is modelled as `Err(BadNumber)`, not as a C++ exception.
- Commands.Interpret: where `parseCommand` indexes `words[0]`, `words[1]`, `words[2]`, `words[3]` or `words[4]` past the end of the list, the model follows a fixed policy. Too few words means UNKNOWN, and a plain `SET key value` has no expiry. A PX value `stoi` cannot read is `Err(BadExpiry)`, where the C++ throws.
- Server.Respond: a buffer whose decoding reads past the terminator, or whose count, length or PX value `stoi` rejects, gets no reply, and the store is unchanged. In the C++ the first reads memory the model does not know, and the second throws.
- Server.Respond: only the first request of a buffer is decoded and executed, as the code does. Pipelined requests in one buffer are not handled.
- Server.Expired: an entry counts as expired only when its expiry time is strictly before `now`, as the code's `<` has it. An entry whose expiry equals `now` is still returned.
- Server.RepliesReadBack: an ECHO message with CR or LF in it produces a reply a client cannot read as one simple string. The lemma excludes such messages.

## Findings

| source | as written | input that shows it | evidently intended | confidence | as-written member | corrected member |
|---|---|---|---|---|---|---|
| app/parser.cpp:66 | `words[3]` is uppercased and compared with `PX` without checking that a fourth word exists | `*3\r\n$3\r\nSET\r\n$1\r\nk\r\n$1\r\nv\r\n` | a SET without a fourth word stores the value with no expiry | not executed | Commands.PlainSetReadsPastEnd | Commands.PlainSetHasNoExpiry |
| app/parser.cpp:57 | `words[0]` is read without checking that the request has any word | `*0\r\n` | an empty request is treated as an unknown command | not executed | Commands.EmptyRequestReadsPastEnd | Commands.EmptyRequestIsUnknown |
