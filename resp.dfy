/**
 * The RESP wire format as this server uses it: requests framed as an array of
 * bulk strings, `*<N>\r\n` followed by N copies of `$<L>\r\n<L bytes>\r\n`
 * (the "Arrays" and "Bulk strings" sections of the RESP2 protocol), and the
 * three reply forms it writes back.
 *
 * The decoder is the cursor walk of `Parser`: it skips the delimiter bytes by
 * position without looking at them, and only its reads are checked. Where the
 * C++ would read past the end of its buffer, or `stoi` would throw, the model
 * returns an error. Each `char` of the input is one byte of the C++ buffer.
 */
module Resp {
  import opened Wrappers
  import opened Decimal

  datatype DecodeError =
    | OutOfBounds   // a read would run past the end of the input
    | BadNumber     // `stoi` would throw on a count or a length
    | NegativeSize  // a negative count or length; the C++ loop would run off the input

  /** The first position at or after `from` that holds `c`, if there is one. */
  function Find(s: string, from: nat, c: char): (r: Option<nat>)
    ensures r.Some? ==> from <= r.value < |s| && s[r.value] == c
    ensures r.None? ==> forall k :: from <= k < |s| ==> s[k] != c
    decreases |s| - from
  {
    if from >= |s| then None
    else if s[from] == c then Some(from)
    else Find(s, from + 1, c)
  }

  /** No position that `Find` passes over holds `c`. */
  lemma {:induction false} FindIsFirst(s: string, from: nat, c: char)
    requires Find(s, from, c).Some?
    ensures forall k :: from <= k < Find(s, from, c).value ==> s[k] != c
    decreases |s| - from
  {
    if s[from] != c {
      FindIsFirst(s, from + 1, c);
    }
  }

  /** The `n` characters of `s` from `from` on; nothing is read when `n` is 0. */
  function Segment(s: string, from: nat, n: nat): string
    requires n == 0 || from + n <= |s|
  {
    if n == 0 then "" else s[from..from + n]
  }

  /**
   * One `$<L>\r\n<L bytes>` word read from position `pos`, where the cursor
   * stands before it skips the `\r\n$` in front of the length, and the
   * position just after the word.
   */
  function ReadWord(s: string, pos: nat): Result<(string, nat), DecodeError>
  {
    var lengthAt := pos + 3;
    match Find(s, lengthAt, '\r')
    case None => Err(OutOfBounds)
    case Some(j) =>
      match Stoi(s[lengthAt..j])
      case None => Err(BadNumber)
      case Some(size) =>
        var wordAt := j + 2;
        if size < 0 then Err(NegativeSize)
        else if size > 0 && wordAt + size > |s| then Err(OutOfBounds)
        else Ok((Segment(s, wordAt, size), wordAt + size))
  }

  /** The conditions under which `ReadWord` succeeds, in the order the cursor meets them. */
  lemma ReadWordSucceeds(s: string, pos: nat, j: nat, size: int, w: string, next: nat)
    requires Find(s, pos + 3, '\r') == Some(j) && Stoi(s[pos + 3..j]) == Some(size)
    requires size >= 0 && (size == 0 || j + 2 + size <= |s|)
    requires w == Segment(s, j + 2, size) && next == j + 2 + size
    ensures ReadWord(s, pos) == Ok((w, next))
  {
  }

  /** The `n` words read one after the other from position `pos`. */
  function DecodeWords(s: string, pos: nat, n: nat): (r: Result<seq<string>, DecodeError>)
    ensures r.Ok? ==> |r.value| == n
    decreases n
  {
    if n == 0 then Ok([])
    else
      match ReadWord(s, pos)
      case Err(e) => Err(e)
      case Ok((word, next)) => Prepend([word], DecodeWords(s, next, n - 1))
  }

  /**
   * A word read from `pos` has the length given by the decimal field before its
   * `\r`, and is the characters that start two places after that `\r`.
   */
  lemma ReadWordShape(s: string, pos: nat, w: string, next: nat)
    requires ReadWord(s, pos) == Ok((w, next))
    ensures Find(s, pos + 3, '\r').Some?
    ensures var j := Find(s, pos + 3, '\r').value;
      && Stoi(s[pos + 3..j]) == Some(|w|)
      && next == j + 2 + |w|
      && (|w| > 0 ==> next <= |s| && w == s[j + 2..next])
  {
  }

  /** The words come back in the order they stand in the input: the first read, then the rest. */
  lemma DecodeWordsInOrder(s: string, pos: nat, n: nat, words: seq<string>)
    requires n > 0 && DecodeWords(s, pos, n) == Ok(words)
    ensures ReadWord(s, pos).Ok? && words[0] == ReadWord(s, pos).value.0
    ensures DecodeWords(s, ReadWord(s, pos).value.1, n - 1) == Ok(words[1..])
  {
    var rest := DecodeWords(s, ReadWord(s, pos).value.1, n - 1);
    assert ([words[0]] + rest.value)[1..] == rest.value;
  }

  /** When a word is read, `DecodeWords` goes on from just after it. */
  lemma DecodeWordsStep(s: string, pos: nat, n: nat, done: seq<string>, w: string, next: nat)
    requires n > 0 && ReadWord(s, pos) == Ok((w, next))
    ensures Prepend(done, DecodeWords(s, pos, n)) == Prepend(done + [w], DecodeWords(s, next, n - 1))
  {
    PrependTwice(done, [w], DecodeWords(s, next, n - 1));
  }

  /** Once the count is read, `DecodeFrom` reads that many words from the `\r` after it. */
  lemma DecodeFromCount(s: string, start: nat, n: nat, j: nat)
    requires ReadCount(s, start) == Ok((n, j))
    ensures DecodeFrom(s, start) == DecodeWords(s, j, n)
  {
  }

  /** Reading no more words adds nothing to those already read. */
  lemma DecodeNoWords(s: string, pos: nat, done: seq<string>)
    ensures Prepend(done, DecodeWords(s, pos, 0)) == Ok(done)
  {
    assert done + [] == done;
  }

  /** When a word cannot be read, `DecodeWords` fails the same way. */
  lemma DecodeWordsFails(s: string, pos: nat, n: nat, e: DecodeError)
    requires n > 0 && ReadWord(s, pos) == Err(e)
    ensures DecodeWords(s, pos, n) == Err(e)
  {
  }

  /**
   * The count of the request whose `*` stands at `start`, read up to its `\r`,
   * and the position of that `\r`.
   */
  function ReadCount(s: string, start: nat): Result<(nat, nat), DecodeError>
  {
    var countAt := start + 1;
    match Find(s, countAt, '\r')
    case None => Err(OutOfBounds)
    case Some(j) =>
      match Stoi(s[countAt..j])
      case None => Err(BadNumber)
      case Some(count) => if count < 0 then Err(NegativeSize) else Ok((count, j))
  }

  /** The request whose `*` stands at `start`, decoded as `Parser::parse` does. */
  function DecodeFrom(s: string, start: nat): Result<seq<string>, DecodeError>
  {
    match ReadCount(s, start)
    case Err(e) => Err(e)
    case Ok((count, j)) => DecodeWords(s, j, count)
  }

  /** The words of the request at the start of `s`; anything after it is ignored. */
  function Decode(s: string): Result<seq<string>, DecodeError>
  {
    DecodeFrom(s, 0)
  }

  /** The count a request declares after its `*`, as `stoi` reads it. */
  function DeclaredCount(s: string): Option<int>
  {
    match Find(s, 1, '\r')
    case None => None
    case Some(j) => Stoi(s[1..j])
  }

  function Prepend(words: seq<string>, r: Result<seq<string>, DecodeError>): Result<seq<string>, DecodeError>
  {
    match r
    case Ok(rest) => Ok(words + rest)
    case Err(e) => Err(e)
  }

  lemma PrependNothing(r: Result<seq<string>, DecodeError>)
    ensures Prepend([], r) == r
  {
    if r.Ok? {
      assert [] + r.value == r.value;
    }
  }

  lemma PrependTwice(a: seq<string>, b: seq<string>, r: Result<seq<string>, DecodeError>)
    ensures Prepend(a, Prepend(b, r)) == Prepend(a + b, r)
  {
    if r.Ok? {
      assert a + (b + r.value) == (a + b) + r.value;
    }
  }

  /** The cursor-based request decoder. */
  class Parser {
    const input: string
    var cursor: nat

    constructor (inp: string)
      ensures input == inp && cursor == 0
    {
      input := inp;
      cursor := 0;
    }

    /**
     * Copies characters up to the first `c` and leaves the cursor on it; when
     * there is no `c`, the scan runs to the end of the input and fails.
     */
    method UntilChar(c: char) returns (r: Option<string>)
      modifies this`cursor
      ensures r.Some? <==> Find(input, old(cursor), c).Some?
      ensures r.Some? ==> Find(input, old(cursor), c) == Some(cursor)
      ensures r.Some? ==> old(cursor) <= cursor < |input| && input[cursor] == c
      ensures r.Some? ==> r.value == input[old(cursor)..cursor]
      ensures r.Some? ==> forall i :: 0 <= i < |r.value| ==> r.value[i] != c
      ensures r.None? ==> cursor == if old(cursor) < |input| then |input| else old(cursor)
    {
      ghost var start := cursor;
      var result := "";
      while cursor < |input| && input[cursor] != c
        invariant start <= cursor && (start < cursor ==> cursor <= |input|)
        invariant start < cursor ==> result == input[start..cursor]
        invariant start == cursor ==> result == ""
        invariant forall i :: 0 <= i < |result| ==> result[i] != c
        invariant Find(input, start, c) == Find(input, cursor, c)
        decreases |input| - cursor
      {
        result := result + [input[cursor]];
        cursor := cursor + 1;
      }
      if cursor >= |input| {
        return None;
      }
      assert Find(input, cursor, c) == Some(cursor);
      r := Some(result);
    }

    /** Copies exactly `n` characters and advances the cursor by `n`. */
    method Take(n: int) returns (r: Option<string>)
      modifies this`cursor
      ensures r.Some? <==> 0 <= n && (n == 0 || old(cursor) + n <= |input|)
      ensures r.Some? ==> r.value == Segment(input, old(cursor), n) && cursor == old(cursor) + n
      ensures r.None? ==> cursor == if n < 0 || old(cursor) >= |input| then old(cursor) else |input|
    {
      if n < 0 {
        return None;
      }
      ghost var start := cursor;
      var result := "";
      var k := n;
      while k > 0
        invariant 0 <= k <= n && cursor == start + (n - k)
        invariant cursor <= |input| || k == n
        invariant result == Segment(input, start, n - k)
      {
        if cursor >= |input| {
          return None;
        }
        result := result + [input[cursor]];
        cursor := cursor + 1;
        k := k - 1;
      }
      r := Some(result);
    }

    /**
     * One pass of the loop in `parse`: skips the `\r\n$` in front of a length,
     * reads the length up to its `\r`, skips the `\r\n` and takes that many
     * characters.
     */
    method NextWord() returns (r: Result<string, DecodeError>)
      modifies this`cursor
      ensures r.Ok? ==> ReadWord(input, old(cursor)) == Ok((r.value, cursor))
      ensures r.Err? ==> ReadWord(input, old(cursor)) == Err(r.error)
    {
      ghost var pos := cursor;
      cursor := cursor + 3;
      var lengthText := UntilChar('\r');
      if lengthText.None? {
        return Err(OutOfBounds);
      }
      ghost var j := cursor;
      assert lengthText.value == input[pos + 3..j];
      var wordLength := Stoi(lengthText.value);
      if wordLength.None? {
        return Err(BadNumber);
      }
      cursor := cursor + 2;
      var word := Take(wordLength.value);
      if word.None? {
        if wordLength.value < 0 {
          return Err(NegativeSize);
        }
        return Err(OutOfBounds);
      }
      ReadWordSucceeds(input, pos, j, wordLength.value, word.value, cursor);
      r := Ok(word.value);
    }

    /** Skips the `*` and reads the count of a request up to its `\r`. */
    method NextCount() returns (r: Result<nat, DecodeError>)
      modifies this`cursor
      ensures r.Ok? ==> ReadCount(input, old(cursor)) == Ok((r.value, cursor))
      ensures r.Err? ==> ReadCount(input, old(cursor)) == Err(r.error)
    {
      ghost var start := cursor;
      cursor := cursor + 1;
      var countText := UntilChar('\r');
      if countText.None? {
        return Err(OutOfBounds);
      }
      assert countText.value == input[start + 1..cursor];
      var count := Stoi(countText.value);
      if count.None? {
        return Err(BadNumber);
      }
      if count.value < 0 {
        return Err(NegativeSize);
      }
      r := Ok(count.value);
    }

    /** Reads a count after the `*`, then that many length-prefixed words. */
    method Parse() returns (r: Result<seq<string>, DecodeError>)
      modifies this`cursor
      ensures r == DecodeFrom(input, old(cursor))
    {
      ghost var start := cursor;
      var results: seq<string> := [];
      var count := NextCount();
      if count.Err? {
        return Err(count.error);
      }
      var wordCount := count.value;
      ghost var goal := DecodeWords(input, cursor, wordCount);
      DecodeFromCount(input, start, wordCount, cursor);
      PrependNothing(goal);
      while wordCount > 0
        invariant goal == Prepend(results, DecodeWords(input, cursor, wordCount))
      {
        ghost var pos := cursor;
        var word := NextWord();
        if word.Err? {
          DecodeWordsFails(input, pos, wordCount, word.error);
          return Err(word.error);
        }
        DecodeWordsStep(input, pos, wordCount, results, word.value, cursor);
        results := results + [word.value];
        wordCount := wordCount - 1;
      }
      DecodeNoWords(input, cursor, results);
      r := Ok(results);
    }
  }

  /** `$<len>\r\n<w>\r\n`: one word of a request, and the reply to a GET that finds a value. */
  function BulkString(w: string): string
  {
    "$" + NatToString(|w|) + "\r\n" + w + "\r\n"
  }

  /** `+<text>\r\n`. */
  function SimpleString(text: string): string
  {
    "+" + text + "\r\n"
  }

  /** `$-1\r\n`, the reply that stands for no value. */
  const NullBulkString: string := "$-1\r\n"

  function EncodeWords(words: seq<string>): string
  {
    if words == [] then "" else BulkString(words[0]) + EncodeWords(words[1..])
  }

  /** The request a client sends for `words`: `*<N>\r\n` and N bulk strings. */
  function EncodeRequest(words: seq<string>): string
  {
    "*" + NatToString(|words|) + "\r\n" + EncodeWords(words)
  }

  /** Word lists whose count and lengths `stoi` can read back. */
  predicate Encodable(words: seq<string>)
  {
    |words| <= INT_MAX && forall i :: 0 <= i < |words| ==> |words[i]| <= INT_MAX
  }

  /** The scan finds the first `c` at or after `from`. */
  lemma {:induction false} FindFirst(s: string, from: nat, q: nat, c: char)
    requires from <= q < |s| && s[q] == c
    requires forall k :: from <= k < q ==> s[k] != c
    ensures Find(s, from, c) == Some(q)
    decreases q - from
  {
    if from < q {
      FindFirst(s, from + 1, q, c);
    }
  }

  /** A field free of `\r` and followed by `\r` is found whole by the scan for `\r`. */
  lemma FindAfterField(s: string, p: nat, field: string)
    requires p + |field| < |s| && s[p..p + |field|] == field && s[p + |field|] == '\r'
    requires forall i :: 0 <= i < |field| ==> field[i] != '\r'
    ensures Find(s, p, '\r') == Some(p + |field|)
  {
    forall k | p <= k < p + |field|
      ensures s[k] != '\r'
    {
      assert s[k] == field[k - p];
    }
    FindFirst(s, p, p + |field|, '\r');
  }

  lemma Regroup(x: string, y: string, z: string)
    ensures x + (y + z) == x + y + z
  {
  }

  /** Where `s` continues as `a + b + c` from `pos`, `b` and `c` stand at their offsets. */
  lemma PartsAt(s: string, pos: nat, a: string, b: string, c: string)
    requires pos <= |s| && s[pos..] == a + b + c
    ensures pos + |a| + |b| <= |s|
    ensures s[pos + |a|..pos + |a| + |b|] == b
    ensures s[pos + |a| + |b|..] == c
  {
    var t := s[pos..];
    assert s[pos + |a|..pos + |a| + |b|] == t[|a|..|a| + |b|];
    assert s[pos + |a| + |b|..] == t[|a| + |b|..];
  }

  /** `stoi` reads back a decimal field written by `to_string`. */
  lemma StoiOfField(s: string, i: nat, k: nat, n: nat)
    requires n <= INT_MAX && i <= k <= |s| && s[i..k] == NatToString(n)
    ensures Stoi(s[i..k]) == Some(n)
  {
    StoiOfNatToString(n);
  }

  /** The length field of a bulk string after a `\r\n` at `pos`, and what follows it. */
  lemma LengthOfBulk(s: string, pos: nat, w: string, tail: string)
    requires pos <= |s| && s[pos..] == "\r\n" + BulkString(w) + tail
    ensures var n := |NatToString(|w|)|;
      && pos + 3 + n <= |s|
      && s[pos + 3..pos + 3 + n] == NatToString(|w|)
      && s[pos + 3 + n..] == "\r\n" + w + "\r\n" + tail
  {
    var len := NatToString(|w|);
    var crlf := "\r\n";
    var word := crlf + w + crlf;
    Regroup("$" + len, crlf, w);
    Regroup("$" + len, crlf + w, crlf);
    Regroup(crlf, "$" + len, word);
    Regroup(crlf, "$", len);
    assert crlf + "$" == "\r\n$";
    Regroup("\r\n$" + len, word, tail);
    PartsAt(s, pos, "\r\n$", len, word + tail);
  }

  /** The word of a bulk string whose length field ends at `j`, and what follows it. */
  lemma WordOfBulk(s: string, j: nat, w: string, tail: string)
    requires j <= |s| && s[j..] == "\r\n" + w + "\r\n" + tail
    ensures j + 2 + |w| + 2 <= |s| && s[j] == '\r'
    ensures s[j + 2..j + 2 + |w|] == w
    ensures s[j + 2 + |w|..] == "\r\n" + tail
  {
    assert s[j] == s[j..][0];
    Regroup("\r\n" + w, "\r\n", tail);
    PartsAt(s, j, "\r\n", w, "\r\n" + tail);
  }

  /**
   * A length field `len` at `pos + 3` that `stoi` reads as `|w|` and that the
   * scan for `\r` finds whole, and `w` two places after it, are read as one word.
   */
  lemma ReadWordAt(s: string, pos: nat, len: string, w: string)
    requires Stoi(len) == Some(|w|) && Find(s, pos + 3, '\r') == Some(pos + 3 + |len|)
    requires pos + 5 + |len| + |w| <= |s| && s[pos + 3..pos + 3 + |len|] == len
    requires s[pos + 5 + |len|..pos + 5 + |len| + |w|] == w
    ensures ReadWord(s, pos) == Ok((w, pos + 5 + |len| + |w|))
  {
    var j := pos + 3 + |len|;
    assert Segment(s, j + 2, |w|) == w;
    ReadWordSucceeds(s, pos, j, |w|, w, j + 2 + |w|);
  }

  /**
   * The fields of a bulk string for `w` after a `\r\n` at `pos`: the length
   * field `to_string` writes, the `\r` after it, and the word two places later.
   */
  predicate BulkAt(s: string, pos: nat, w: string)
  {
    var n := |NatToString(|w|)|;
    && pos + 5 + n + |w| <= |s|
    && s[pos + 3..pos + 3 + n] == NatToString(|w|) && s[pos + 3 + n] == '\r'
    && s[pos + 5 + n..pos + 5 + n + |w|] == w
  }

  /** The position just after the word of a bulk string for `w` at `pos`. */
  function BulkEnd(pos: nat, w: string): nat
  {
    pos + 5 + |NatToString(|w|)| + |w|
  }

  /** Where a bulk string follows a `\r\n` at `pos`, its length field and its word stand at fixed offsets. */
  lemma BulkFields(s: string, pos: nat, w: string, tail: string)
    requires pos <= |s| && s[pos..] == "\r\n" + BulkString(w) + tail
    ensures BulkAt(s, pos, w) && BulkEnd(pos, w) <= |s|
    ensures s[BulkEnd(pos, w)..] == "\r\n" + tail
  {
    var n := |NatToString(|w|)|;
    LengthOfBulk(s, pos, w, tail);
    WordOfBulk(s, pos + 3 + n, w, tail);
  }

  /** A length field written by `to_string` is read back by `stoi` and holds no `\r`. */
  lemma LengthText(n: nat)
    requires n <= INT_MAX
    ensures Stoi(NatToString(n)) == Some(n)
    ensures forall i :: 0 <= i < |NatToString(n)| ==> NatToString(n)[i] != '\r'
  {
    StoiOfNatToString(n);
    assert AllDigits(NatToString(n));
  }

  /** A length field `len` ended by `\r` at `pos + 3`, and the word two places after it, are read as one word. */
  lemma WordOfFields(s: string, pos: nat, len: string, w: string)
    requires Stoi(len) == Some(|w|) && forall i :: 0 <= i < |len| ==> len[i] != '\r'
    requires pos + 5 + |len| + |w| <= |s|
    requires s[pos + 3..pos + 3 + |len|] == len && s[pos + 3 + |len|] == '\r'
    requires s[pos + 5 + |len|..pos + 5 + |len| + |w|] == w
    ensures ReadWord(s, pos) == Ok((w, pos + 5 + |len| + |w|))
  {
    FindAfterField(s, pos + 3, len);
    ReadWordAt(s, pos, len, w);
  }

  /** When a word is read and the rest decode to `more`, the whole decodes to the word followed by `more`. */
  lemma DecodeWordsCons(s: string, pos: nat, n: nat, w: string, next: nat, more: seq<string>)
    requires n > 0 && ReadWord(s, pos) == Ok((w, next))
    requires DecodeWords(s, next, n - 1) == Ok(more)
    ensures DecodeWords(s, pos, n) == Ok([w] + more)
  {
  }

  /** An encoded word list after a `\r\n` splits into its first bulk string and the encoding of the others. */
  lemma EncodingStep(s: string, pos: nat, words: seq<string>, rest: string)
    requires words != []
    requires pos <= |s| && s[pos..] == "\r\n" + EncodeWords(words) + rest
    ensures s[pos..] == "\r\n" + BulkString(words[0]) + (EncodeWords(words[1..]) + rest)
  {
    var w := words[0];
    var others := EncodeWords(words[1..]);
    assert EncodeWords(words) == BulkString(w) + others;
    Regroup("\r\n", BulkString(w), others);
    Regroup("\r\n" + BulkString(w), others, rest);
  }

  /** The bulk strings for `words`, one after the other from `pos`. */
  predicate BulksAt(s: string, pos: nat, words: seq<string>)
    decreases |words|
  {
    words == [] || (BulkAt(s, pos, words[0]) && BulksAt(s, BulkEnd(pos, words[0]), words[1..]))
  }

  /** The first bulk string of an encoded word list lays out its fields, and the encoding of the others follows it. */
  lemma BulkStep(s: string, pos: nat, words: seq<string>, rest: string)
    requires words != []
    requires pos <= |s| && s[pos..] == "\r\n" + EncodeWords(words) + rest
    ensures BulkAt(s, pos, words[0]) && BulkEnd(pos, words[0]) <= |s|
    ensures s[BulkEnd(pos, words[0])..] == "\r\n" + EncodeWords(words[1..]) + rest
  {
    var others := EncodeWords(words[1..]);
    EncodingStep(s, pos, words, rest);
    BulkFields(s, pos, words[0], others + rest);
    Regroup("\r\n", others, rest);
  }

  /** An encoded word list after a `\r\n` at `pos` lays out the fields of its bulk strings. */
  lemma {:induction false} BulksOfEncoding(s: string, pos: nat, words: seq<string>, rest: string)
    requires pos <= |s| && s[pos..] == "\r\n" + EncodeWords(words) + rest
    ensures BulksAt(s, pos, words)
    decreases |words|
  {
    if words != [] {
      BulkStep(s, pos, words, rest);
      BulksOfEncoding(s, BulkEnd(pos, words[0]), words[1..], rest);
    }
  }

  /** The fields of a run of bulk strings are read back as their words. */
  lemma {:induction false} DecodeWordsOfBulks(s: string, pos: nat, words: seq<string>)
    requires Encodable(words) && BulksAt(s, pos, words)
    ensures DecodeWords(s, pos, |words|) == Ok(words)
    decreases |words|
  {
    if words != [] {
      var w := words[0];
      LengthText(|w|);
      WordOfFields(s, pos, NatToString(|w|), w);
      assert Encodable(words[1..]);
      DecodeWordsOfBulks(s, BulkEnd(pos, w), words[1..]);
      DecodeWordsCons(s, pos, |words|, w, BulkEnd(pos, w), words[1..]);
      assert [w] + words[1..] == words;
    }
  }

  /** The bulk strings of an encoded word list, after a `\r\n` at `pos`, are read back as the list. */
  lemma DecodeWordsOfEncoding(s: string, pos: nat, words: seq<string>, rest: string)
    requires Encodable(words)
    requires pos <= |s| && s[pos..] == "\r\n" + EncodeWords(words) + rest
    ensures DecodeWords(s, pos, |words|) == Ok(words)
  {
    BulksOfEncoding(s, pos, words, rest);
    DecodeWordsOfBulks(s, pos, words);
  }

  /**
   * Decoding the encoding of a word list gives the same list back, whatever
   * follows the request in the buffer.
   */
  lemma DecodeOfEncoding(words: seq<string>, rest: string)
    requires Encodable(words)
    ensures Decode(EncodeRequest(words) + rest) == Ok(words)
  {
    var s := EncodeRequest(words) + rest;
    var count := NatToString(|words|);
    var n := |count|;
    var body := "\r\n" + EncodeWords(words);
    Regroup("*" + count, "\r\n", EncodeWords(words));
    Regroup("*" + count, body, rest);
    assert s[0..] == s;
    PartsAt(s, 0, "*", count, body + rest);
    assert s[1 + n] == (body + rest)[0];
    FindAfterField(s, 1, count);
    StoiOfField(s, 1, 1 + n, |words|);
    assert ReadCount(s, 0) == Ok((|words|, 1 + n));
    DecodeWordsOfEncoding(s, 1 + n, words, rest);
  }

  /** Two word lists with the same encoding are the same list. */
  lemma EncodeRequestInjective(a: seq<string>, b: seq<string>)
    requires Encodable(a) && Encodable(b)
    requires EncodeRequest(a) == EncodeRequest(b)
    ensures a == b
  {
    DecodeOfEncoding(a, "");
    DecodeOfEncoding(b, "");
    assert EncodeRequest(a) + "" == EncodeRequest(b) + "";
  }

  /** A decoded request has exactly as many words as the count after its `*`. */
  lemma DecodeHasDeclaredCount(s: string)
    requires Decode(s).Ok?
    ensures DeclaredCount(s) == Some(|Decode(s).value|)
  {
  }

  /** The reply forms the server writes. */
  datatype Reply = Simple(text: string) | Bulk(data: string) | Null

  function EncodeReply(r: Reply): string
  {
    match r
    case Simple(text) => SimpleString(text)
    case Bulk(data) => BulkString(data)
    case Null => NullBulkString
  }

  predicate NoLineBreak(text: string)
  {
    forall i :: 0 <= i < |text| ==> text[i] != '\r' && text[i] != '\n'
  }

  /** A reply a RESP client can write: simple strings carry no CR or LF. */
  predicate ReplyEncodable(r: Reply)
  {
    r.Simple? ==> NoLineBreak(r.text)
  }

  /** How a RESP client reads a whole reply; None for anything malformed. */
  function DecodeReply(s: string): Option<Reply>
  {
    if s == [] then None
    else
      match Find(s, 1, '\r')
      case None => None
      case Some(j) =>
        if j + 1 >= |s| || s[j + 1] != '\n' then None
        else if s[0] == '+' then
          if j + 2 == |s| && NoLineBreak(s[1..j]) then Some(Simple(s[1..j])) else None
        else if s[0] == '$' then
          if s[1..j] == "-1" then
            if j + 2 == |s| then Some(Null) else None
          else
            match ParseDecimal(s[1..j])
            case None => None
            case Some(n) =>
              if j + 2 + n + 2 == |s| && s[j + 2 + n..] == "\r\n" then Some(Bulk(s[j + 2..j + 2 + n]))
              else None
        else None
  }

  /** Every reply form is read back by a client as itself. */
  lemma DecodeOfEncodeReply(r: Reply)
    requires ReplyEncodable(r)
    ensures DecodeReply(EncodeReply(r)) == Some(r)
  {
    match r
    case Simple(text) => DecodeOfSimpleString(text);
    case Bulk(data) => DecodeOfBulkString(data);
    case Null => DecodeOfNullBulkString();
  }

  /** A simple string without CR or LF is read back as itself. */
  lemma DecodeOfSimpleString(text: string)
    requires NoLineBreak(text)
    ensures DecodeReply(SimpleString(text)) == Some(Simple(text))
  {
    var s := SimpleString(text);
    assert s[1..1 + |text|] == text;
    FindAfterField(s, 1, text);
  }

  /** A bulk string is read back as its data, whatever bytes it holds. */
  lemma DecodeOfBulkString(data: string)
    ensures DecodeReply(BulkString(data)) == Some(Bulk(data))
  {
    var s := BulkString(data);
    var len := NatToString(|data|);
    assert s == "$" + len + "\r\n" + data + "\r\n";
    assert s[1..1 + |len|] == len;
    FindAfterField(s, 1, len);
    var j := 1 + |len|;
    assert s[1..j] != "-1" by {
      assert IsDigit(len[0]);
    }
    assert s[j + 2..j + 2 + |data|] == data;
    assert s[j + 2 + |data|..] == "\r\n";
  }

  /** `$-1\r\n` is read back as the null reply. */
  lemma DecodeOfNullBulkString()
    ensures DecodeReply(NullBulkString) == Some(Null)
  {
    var s := NullBulkString;
    assert s[1..3] == "-1";
    FindAfterField(s, 1, "-1");
  }
}
