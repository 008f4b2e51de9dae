/** The example HTTP server: the parser that cuts its buffer in place, and the loop that
    reuses one buffer for all requests. */
module HttpServer {
  import opened Options
  import opened QueryString

  const NUL := '\0'
  const BUFFER_SIZE := 10000

  /** From position `at`, the buffer holds the NUL-terminated string `s`. */
  predicate HoldsString(buff: seq<char>, at: nat, s: string) {
    at + |s| < |buff| && buff[at..at+|s|] == s && buff[at+|s|] == NUL && NUL !in s
  }

  /** The C string at the start of a buffer. */
  function CString(buff: seq<char>): (s: string)
    requires NUL in buff
    ensures HoldsString(buff, 0, s)
  {
    IndexOfNul(buff);
    buff[..IndexOf(buff, NUL)]
  }

  lemma IndexOfNul(buff: seq<char>)
    requires NUL in buff
    ensures IndexOf(buff, NUL) < |buff| && HoldsString(buff, 0, buff[..IndexOf(buff, NUL)])
  {
    var i :| 0 <= i < |buff| && buff[i] == NUL;
  }

  /** Writing a NUL cuts a string in two. */
  lemma CutInPlace(buff: seq<char>, cut: seq<char>, at: nat, s: string, i: nat)
    requires HoldsString(buff, at, s) && i < |s| && cut == buff[at + i := NUL]
    ensures HoldsString(cut, at, s[..i]) && HoldsString(cut, at + i + 1, s[i+1..])
  {
    assert cut[at..at+i] == buff[at..at+|s|][..i];
    assert cut[at+i+1..at+|s|] == buff[at..at+|s|][i+1..];
  }

  lemma SuffixInPlace(buff: seq<char>, at: nat, s: string, i: nat)
    requires HoldsString(buff, at, s) && i <= |s|
    ensures HoldsString(buff, at + i, s[i..])
  {
    assert buff[at+i..at+|s|] == buff[at..at+|s|][i..];
  }

  lemma CharInPlace(buff: seq<char>, at: nat, s: string, i: nat)
    requires HoldsString(buff, at, s) && i <= |s|
    ensures buff[at + i] == if i < |s| then s[i] else NUL
  {
    if i < |s| { assert buff[at + i] == buff[at..at+|s|][i]; }
  }

  /** `strpbrk`; with one character, `strchr`. */
  method StrPbrk(buff: array<char>, at: nat, chars: set<char>, ghost s: string) returns (r: Option<nat>)
    requires HoldsString(buff[..], at, s) && NUL !in chars
    ensures r == if IndexOfAny(s, chars) == |s| then None else Some(at + IndexOfAny(s, chars))
  {
    var i := at;
    CharInPlace(buff[..], at, s, 0);
    while buff[i] != NUL && buff[i] !in chars
      invariant at <= i <= at + |s| && i < buff.Length
      invariant buff[i] == if i - at < |s| then s[i - at] else NUL
      invariant forall j :: 0 <= j < i - at ==> s[j] !in chars
      decreases at + |s| - i
    {
      i := i + 1;
      CharInPlace(buff[..], at, s, i - at);
    }
    r := if buff[i] == NUL then None else Some(i);
  }

  /** Whether the string at `at` starts with the pattern. */
  method StartsWith(buff: array<char>, at: nat, pattern: string, ghost s: string) returns (b: bool)
    requires HoldsString(buff[..], at, s) && NUL !in pattern
    ensures b <==> pattern <= s
  {
    var i := 0;
    CharInPlace(buff[..], at, s, 0);
    while i < |pattern| && buff[at + i] == pattern[i]
      invariant 0 <= i <= |pattern| && i <= |s| && at + i < buff.Length
      invariant buff[at + i] == if i < |s| then s[i] else NUL
      invariant s[..i] == pattern[..i]
    {
      assert pattern[i] in pattern;
      i := i + 1;
      CharInPlace(buff[..], at, s, i);
    }
    b := i == |pattern|;
    assert !b && i < |s| ==> s[i] != pattern[i];
  }

  /** `strstr`. */
  method StrStr(buff: array<char>, pattern: string, ghost s: string) returns (r: Option<nat>)
    requires HoldsString(buff[..], 0, s) && NUL !in pattern && pattern != ""
    ensures r == if Contains(s, pattern) then Some(IndexOfSub(s, pattern)) else None
  {
    var i := 0;
    assert s[0..] == s;
    SuffixInPlace(buff[..], 0, s, 0);
    CharInPlace(buff[..], 0, s, 0);
    var here := StartsWith(buff, 0, pattern, s);
    while buff[i] != NUL && !here
      invariant 0 <= i <= |s| && i < buff.Length
      invariant buff[i] == if i < |s| then s[i] else NUL
      invariant here <==> pattern <= s[i..]
      invariant IndexOfSub(s, pattern) == i + IndexOfSub(s[i..], pattern)
      decreases |s| - i
    {
      assert s[i..][1..] == s[i+1..];
      i := i + 1;
      SuffixInPlace(buff[..], 0, s, i);
      CharInPlace(buff[..], 0, s, i);
      here := StartsWith(buff, i, pattern, s[i..]);
    }
    r := if here then Some(i) else None;
    if i == |s| {
      assert s[i..] == "";
    }
  }

  /** Only NULs are written, and only inside the string that was there. */
  twostate predicate OnlyCuts(buff: array<char>, s: string)
    reads buff
  {
    forall i :: 0 <= i < buff.Length ==>
      buff[i] == old(buff[i]) || (buff[i] == NUL && i < |s|)
  }

  /** `end = strpbrk(...); if (end) *end = '\0'`. */
  method Cut(buff: array<char>, at: nat, chars: set<char>, ghost s: string)
    requires HoldsString(buff[..], at, s) && NUL !in chars
    modifies buff
    ensures HoldsString(buff[..], at, CutAt(s, chars))
    ensures forall i :: 0 <= i < buff.Length ==>
      buff[i] == old(buff[i]) || (buff[i] == NUL && at <= i < at + |s|)
  {
    var end := StrPbrk(buff, at, chars, s);
    if end.Some? {
      CutInPlace(buff[..], buff[..][end.value := NUL], at, s, IndexOfAny(s, chars));
      buff[end.value] := NUL;
    } else {
      assert CutAt(s, chars) == s;
    }
  }

  /** The characters from `from` up to but not including `to`. */
  method Assigned(buff: array<char>, from: nat, ghost s: string) returns (t: string)
    requires HoldsString(buff[..], from, s)
    ensures t == s
  {
    var i := from;
    CharInPlace(buff[..], from, s, 0);
    while buff[i] != NUL
      invariant from <= i <= from + |s| && i < buff.Length
      invariant buff[i] == if i - from < |s| then s[i - from] else NUL
      decreases from + |s| - i
    {
      i := i + 1;
      CharInPlace(buff[..], from, s, i - from);
    }
    t := buff[from..i];
  }

  /** The query loop: cuts the text at every separator while filling the map. */
  method ReadArguments(buff: array<char>, start: nat, ghost text: string) returns (args: map<string, string>)
    requires HoldsString(buff[..], start, text)
    modifies buff
    ensures args == ParseQuery(text)
    ensures forall i :: 0 <= i < buff.Length ==>
      buff[i] == old(buff[i]) || (buff[i] == NUL && start <= i < start + |text|)
  {
    hide IndexOfAny, PairOf, Pairs, Assign;
    Cut(buff, start, DELIMITERS, text);
    ghost var query := CutAt(text, DELIMITERS);
    args := map[];
    var cursor: Option<nat> := Some(start);
    ghost var rest := query;
    while cursor.Some?
      invariant cursor.Some? ==> HoldsString(buff[..], cursor.value, rest)
      invariant cursor.Some? ==> start <= cursor.value && cursor.value + |rest| == start + |query|
      invariant cursor.Some? ==> Assign(args, Pairs(rest)) == Assign(map[], Pairs(query))
      invariant cursor.None? ==> args == Assign(map[], Pairs(query))
      invariant forall i :: 0 <= i < buff.Length ==>
        buff[i] == old(buff[i]) || (buff[i] == NUL && start <= i < start + |text|)
      decreases if cursor.Some? then 1 + |rest| else 0
    {
      FirstPair(args, rest);
      ghost var i := IndexOf(rest, '&');
      var key, value, end := ReadPiece(buff, cursor.value, rest);
      args := args[key := value];
      cursor := end;
      rest := if i == |rest| then "" else rest[i+1..];
    }
  }

  /** One turn of the loop: the piece up to the next separator, and where to go on. */
  method ReadPiece(buff: array<char>, at: nat, ghost rest: string)
    returns (key: string, value: string, end: Option<nat>)
    requires HoldsString(buff[..], at, rest)
    modifies buff
    ensures IndexOf(rest, '&') == |rest| ==>
      end == None && Pair(key, value) == PairOf(rest) && buff[..] == old(buff[..])
    ensures IndexOf(rest, '&') < |rest| ==>
      var i := IndexOf(rest, '&');
      && end == Some(at + i + 1) && Pair(key, value) == PairOf(rest[..i])
      && buff[..] == old(buff[..])[at + i := NUL] && HoldsString(buff[..], at + i + 1, rest[i+1..])
  {
    hide PairOf;
    end := StrPbrk(buff, at, {'&'}, rest);
    ghost var piece := rest;
    if end.Some? {
      ghost var i := IndexOf(rest, '&');
      CutInPlace(buff[..], buff[..][end.value := NUL], at, rest, i);
      piece := rest[..i];
      buff[end.value] := NUL;
      end := Some(end.value + 1);
    }
    key, value := ReadPair(buff, at, piece);
  }

  /** What one turn of the loop takes off the query. */
  lemma FirstPair(m: map<string, string>, s: string)
    ensures var i := IndexOf(s, '&');
      Assign(m, Pairs(s)) ==
        if i == |s| then m[PairOf(s).key := PairOf(s).value]
        else Assign(m[PairOf(s[..i]).key := PairOf(s[..i]).value], Pairs(s[i+1..]))
  {
    hide IndexOfAny, PairOf;
    var i := IndexOf(s, '&');
    var pieces := Split(s, '&');
    if i == |s| {
      assert PairsOf(pieces) == [PairOf(s)];
      assert [PairOf(s)][1..] == [];
    } else {
      assert pieces == [s[..i]] + Split(s[i+1..], '&');
      assert PairsOf(pieces) == [PairOf(s[..i])] + Pairs(s[i+1..]);
      assert PairsOf(pieces)[1..] == Pairs(s[i+1..]);
    }
  }

  method ReadPair(buff: array<char>, at: nat, ghost piece: string) returns (key: string, value: string)
    requires HoldsString(buff[..], at, piece)
    ensures Pair(key, value) == PairOf(piece)
  {
    var sep := StrPbrk(buff, at, {'='}, piece);
    if sep.Some? {
      ghost var i := IndexOf(piece, '=');
      SuffixInPlace(buff[..], at, piece, i + 1);
      key := buff[at..sep.value];
      assert key == buff[..][at..at+|piece|][..i];
      value := Assigned(buff, sep.value + 1, piece[i+1..]);
    } else {
      key := Assigned(buff, at, piece);
      value := "1";
    }
  }

  method ReadGet(buff: array<char>, ghost s: string) returns (args: map<string, string>)
    requires HoldsString(buff[..], 0, s)
    modifies buff
    ensures args == ParseGet(s) && OnlyCuts(buff, s)
  {
    hide ParseQuery, IndexOfAny;
    Cut(buff, 0, {'\r'}, s);
    Cut(buff, 0, {'\n'}, CutAt(s, {'\r'}));
    ghost var line := CutAt(CutAt(s, {'\r'}), {'\n'});
    var cursor := StrPbrk(buff, 0, {'?'}, line);
    if cursor.None? {
      return map[];
    }
    SuffixInPlace(buff[..], 0, line, cursor.value + 1);
    args := ReadArguments(buff, cursor.value + 1, line[cursor.value + 1..]);
  }

  method ReadPost(buff: array<char>, ghost s: string) returns (ok: bool, args: map<string, string>)
    requires HoldsString(buff[..], 0, s)
    modifies buff
    ensures ParsePost(s) == (if ok then Some(args) else None) && OnlyCuts(buff, s)
  {
    hide ParseQuery, IndexOfSub;
    var end := StrStr(buff, END_OF_HEADERS, s);
    if end.None? {
      return false, map[];
    }
    var cursor := end.value + 4;
    ghost var body := s[cursor..];
    SuffixInPlace(buff[..], 0, s, cursor);
    CharInPlace(buff[..], 0, s, cursor);
    if buff[cursor] == NUL {
      return true, map[];
    }
    args := ReadArguments(buff, cursor, body);
    return true, args;
  }

  /** `ReadHttpRequest` on a buffer with a terminator: in bounds, terminating, and exactly the
      pure parser on the string that was there. */
  method ReadHttpRequest(buff: array<char>) returns (ok: bool, args: map<string, string>)
    requires NUL in buff[..]
    modifies buff
    ensures ParseRequest(CString(old(buff[..]))) == if ok then Some(args) else None
    ensures OnlyCuts(buff, CString(old(buff[..])))
  {
    hide IndexOfAny, ParseGet, ParsePost;
    ghost var s := CString(buff[..]);
    var end := StrPbrk(buff, 0, {' '}, s);
    if end.None? {
      return false, map[];
    }
    var word := buff[..end.value];
    assert word == buff[..][0..|s|][..IndexOf(s, ' ')];
    if word == "GET" {
      args := ReadGet(buff, s);
      return true, args;
    } else if word == "POST" {
      ok, args := ReadPost(buff, s);
      return;
    }
    return false, map[];
  }

  // ---- The accept loop ----

  /** What one `read` brings: bytes, fewer than the buffer holds, or nothing. */
  type Input = s: string | |s| < BUFFER_SIZE

  /** The answer to the bytes of one request, on their own. */
  function ReplyTo(bytes: string): Option<map<string, string>> {
    ParseRequest(CString(bytes + [NUL]))
  }

  function Replies(inputs: seq<Input>): seq<Option<map<string, string>>> {
    if inputs == [] then []
    else
      var last := inputs[|inputs|-1];
      Replies(inputs[..|inputs|-1]) + (if last == "" then [] else [ReplyTo(last)])
  }

  /** Whatever follows a NUL in the bytes of a request is not part of the string. */
  lemma CutAtNul(head: string, tail: string)
    requires NUL !in head
    ensures CString(head + tail + [NUL]) == head + tail[..IndexOf(tail, NUL)]
  {
    hide IndexOfAny;
    var i := IndexOf(tail, NUL);
    var s, buff := head + tail[..i], head + tail + [NUL];
    assert buff[|head| + |tail|] == NUL;
    assert buff[0..|s|] == s && buff[|s|] == NUL;
    SameString(buff, buff, CString(buff), s);
  }

  /** Behind the query: nothing, a delimiter and anything, or a NUL and anything. */
  predicate Ends(tail: string) {
    tail != [] ==> tail[0] in {' ', '\r', '\n', NUL}
  }

  lemma EndsDelimited(tail: string)
    requires Ends(tail)
    ensures Delimited(tail[..IndexOf(tail, NUL)])
  {
  }

  /** What a client sends as a query comes back as the map of what was meant, whatever follows. */
  lemma GetIsServed(path: string, items: seq<Item>, tail: string)
    requires Free(path, {'?', '\r', '\n'}) && Sendable(items) && Ends(tail)
    requires NUL !in "GET " + path + "?" + PrintQuery(items)
    ensures ReplyTo("GET " + path + "?" + PrintQuery(items) + tail) == Some(Assign(map[], Meanings(items)))
  {
    hide ParseRequest, IndexOfAny;
    EndsDelimited(tail);
    GetRoundTrip(path, items, tail[..IndexOf(tail, NUL)]);
    CutAtNul("GET " + path + "?" + PrintQuery(items), tail);
  }

  lemma PostIsServed(headers: string, items: seq<Item>, tail: string)
    requires HeadersEnd(headers) && Sendable(items) && Ends(tail)
    requires PrintQuery(items) != "" || (tail != "" && tail[0] != NUL)
    requires NUL !in "POST " + headers + "\r\n\r\n" + PrintQuery(items)
    ensures ReplyTo("POST " + headers + "\r\n\r\n" + PrintQuery(items) + tail) == Some(Assign(map[], Meanings(items)))
  {
    hide ParseRequest, IndexOfAny, IndexOfSub;
    EndsDelimited(tail);
    PostRoundTrip(headers, items, tail[..IndexOf(tail, NUL)]);
    CutAtNul("POST " + headers + "\r\n\r\n" + PrintQuery(items), tail);
  }

  /** Requests without arguments: a GET line without a question mark, a POST without a body. */
  lemma NoArgumentsServed(path: string, headers: string, tail: string)
    requires Free(path, {'?', '\r', '\n'}) && NUL !in path && (tail != [] ==> tail[0] in {'\r', '\n', NUL})
    requires HeadersEnd(headers) && NUL !in headers
    ensures ReplyTo("GET " + path + tail) == Some(map[])
    ensures ReplyTo("POST " + headers + "\r\n\r\n") == Some(map[])
  {
    hide ParseRequest, IndexOfAny, IndexOfSub;
    var seen := tail[..IndexOf(tail, NUL)];
    assert seen != [] ==> seen[0] == tail[0] && tail[0] != NUL;
    GetWithoutQuery(path, seen);
    CutAtNul("GET " + path, tail);
    PostBody(headers, "", "");
    var post := "POST " + headers + "\r\n\r\n";
    CutAtNul(post, "");
    assert post + "" + "" == post && post + "" == post;
  }

  /** Each request is answered by itself: what came before and what comes after changes nothing. */
  lemma {:induction false} RepliesApart(before: seq<Input>, bytes: Input, later: seq<Input>)
    ensures Replies(before + [bytes] + later) ==
      Replies(before) + (if bytes == "" then [] else [ReplyTo(bytes)]) + Replies(later)
    decreases |later|
  {
    hide ReplyTo;
    if later == [] {
      assert before + [bytes] + later == before + [bytes];
      assert (before + [bytes])[..|before|] == before;
    } else {
      var n := |later| - 1;
      RepliesApart(before, bytes, later[..n]);
      var all := before + [bytes] + later;
      assert all[..|all|-1] == before + [bytes] + later[..n] && all[|all|-1] == later[n];
    }
  }

  /** Behind the bytes of a request an all-zero buffer is still zero. */
  lemma RequestInBuffer(buff: seq<char>, bytes: string)
    requires |bytes| < |buff| && buff[..|bytes|] == bytes
    requires forall i :: |bytes| <= i < |buff| ==> buff[i] == NUL
    ensures NUL in buff && NUL in bytes + [NUL] && CString(buff) == CString(bytes + [NUL])
  {
    var sent := bytes + [NUL];
    assert sent[|bytes|] == NUL && buff[|bytes|] == NUL;
    assert forall i :: 0 <= i < |sent| ==> buff[i] == sent[i];
    SameString(sent, buff, CString(sent), CString(buff));
  }

  lemma SameString(a: seq<char>, b: seq<char>, s: string, t: string)
    requires |a| <= |b| && forall i :: 0 <= i < |a| ==> a[i] == b[i]
    requires HoldsString(a, 0, s) && HoldsString(b, 0, t)
    ensures s == t
  {
    assert |s| == |t|;
    assert s == a[..|s|] && t == b[..|s|];
  }

  class SimpleHttpServer {
    const buffer: array<char>

    constructor ()
      ensures buffer.Length == BUFFER_SIZE && fresh(buffer) && AllZero()
    {
      buffer := new char[BUFFER_SIZE](_ => NUL);
    }

    predicate AllZero()
      reads buffer
    {
      forall i :: 0 <= i < buffer.Length ==> buffer[i] == NUL
    }

    method Read(input: Input)
      requires buffer.Length == BUFFER_SIZE
      modifies buffer
      ensures forall i :: 0 <= i < buffer.Length ==>
        buffer[i] == if i < |input| then input[i] else old(buffer[i])
    {
      for i := 0 to |input|
        invariant forall j :: 0 <= j < buffer.Length ==>
          buffer[j] == if j < i then input[j] else old(buffer[j])
      {
        buffer[i] := input[i];
      }
    }

    /** `memset(buffer_, '\0', size)`. */
    method Reset(size: nat)
      requires size <= buffer.Length
      modifies buffer
      ensures forall i :: 0 <= i < buffer.Length ==> buffer[i] == if i < size then NUL else old(buffer[i])
    {
      for i := 0 to size
        invariant forall j :: 0 <= j < buffer.Length ==> buffer[j] == if j < i then NUL else old(buffer[j])
      {
        buffer[i] := NUL;
      }
    }

    /** The accept loop: whatever came before, each request is answered from its own bytes. */
    method StartServer(inputs: seq<Input>) returns (replies: seq<Option<map<string, string>>>)
      requires buffer.Length == BUFFER_SIZE && AllZero()
      modifies buffer
      ensures AllZero() && replies == Replies(inputs)
    {
      hide ParseRequest;
      replies := [];
      assert inputs[..0] == [];
      for n := 0 to |inputs|
        invariant AllZero() && replies == Replies(inputs[..n])
      {
        assert inputs[..n+1][..n] == inputs[..n];
        var size := |inputs[n]|;
        Read(inputs[n]);
        if size <= 0 {
          continue;
        }
        RequestInBuffer(buffer[..], inputs[n]);
        var ok, args := ReadHttpRequest(buffer);
        replies := replies + [if ok then Some(args) else None];
        Reset(size);
      }
      assert inputs[..|inputs|] == inputs;
    }
  }
}
