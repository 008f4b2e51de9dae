/** What the request parser of the example HTTP server computes, on plain strings: a method
    word, then `key=value` pairs joined by `&`. */
module QueryString {
  import opened Options

  /** Position of the first character in `chars`, or the length. */
  function IndexOfAny(s: string, chars: set<char>): (i: nat)
    ensures i <= |s| && (i < |s| ==> s[i] in chars)
    ensures forall j :: 0 <= j < i ==> s[j] !in chars
  {
    if s == [] || s[0] in chars then 0 else 1 + IndexOfAny(s[1..], chars)
  }

  function IndexOf(s: string, c: char): nat {
    IndexOfAny(s, {c})
  }

  /** Position of the first occurrence of `pattern`, or the length. */
  function IndexOfSub(s: string, pattern: string): (i: nat)
    ensures i <= |s|
  {
    if pattern <= s || s == [] then 0 else 1 + IndexOfSub(s[1..], pattern)
  }

  predicate Contains(s: string, pattern: string) {
    pattern <= s[IndexOfSub(s, pattern)..]
  }

  function Split(s: string, sep: char): (pieces: seq<string>)
    ensures |pieces| > 0
    decreases |s|
  {
    var i := IndexOf(s, sep);
    if i == |s| then [s] else [s[..i]] + Split(s[i+1..], sep)
  }

  function Join(pieces: seq<string>, sep: char): string
    requires |pieces| > 0
  {
    if |pieces| == 1 then pieces[0] else pieces[0] + [sep] + Join(pieces[1..], sep)
  }

  datatype Pair = Pair(key: string, value: string)

  /** A piece is cut at its first `=`; without one its value is "1". */
  function PairOf(piece: string): Pair {
    var i := IndexOf(piece, '=');
    if i == |piece| then Pair(piece, "1") else Pair(piece[..i], piece[i+1..])
  }

  function PairsOf(pieces: seq<string>): (ps: seq<Pair>)
    ensures |ps| == |pieces|
  {
    seq(|pieces|, i requires 0 <= i < |pieces| => PairOf(pieces[i]))
  }

  function Pairs(query: string): seq<Pair> {
    PairsOf(Split(query, '&'))
  }

  /** Assigning pairs to a map one after the other. */
  function Assign(m: map<string, string>, ps: seq<Pair>): map<string, string>
    decreases |ps|
  {
    if ps == [] then m else Assign(m[ps[0].key := ps[0].value], ps[1..])
  }

  function CutAt(s: string, chars: set<char>): string {
    s[..IndexOfAny(s, chars)]
  }

  const END_OF_HEADERS := "\r\n\r\n"

  /** What ends a query: the blank before the protocol version, or the end of a line. */
  const DELIMITERS := {' ', '\r', '\n'}

  function ParseQuery(text: string): map<string, string> {
    Assign(map[], Pairs(CutAt(text, DELIMITERS)))
  }

  /** Arguments behind the question mark of the first line. */
  function ParseGet(s: string): map<string, string> {
    var line := CutAt(CutAt(s, {'\r'}), {'\n'});
    var mark := IndexOf(line, '?');
    if mark == |line| then map[] else ParseQuery(line[mark+1..])
  }

  /** Arguments in the body behind the headers. */
  function ParsePost(s: string): Option<map<string, string>> {
    if !Contains(s, END_OF_HEADERS) then None
    else
      var body := s[IndexOfSub(s, END_OF_HEADERS) + 4..];
      Some(if body == "" then map[] else ParseQuery(body))
  }

  /** The whole parser; none is a parse error. */
  function ParseRequest(s: string): Option<map<string, string>> {
    var sp := IndexOf(s, ' ');
    if sp == |s| then None
    else if s[..sp] == "GET" then Some(ParseGet(s))
    else if s[..sp] == "POST" then ParsePost(s)
    else None
  }

  // ---- Splitting ----

  lemma IndexInPrefix(s: string, t: string, chars: set<char>)
    requires forall i :: 0 <= i < |s| ==> s[i] !in chars
    requires t != [] ==> t[0] in chars
    ensures IndexOfAny(s + t, chars) == |s|
  {
    var i := IndexOfAny(s + t, chars);
    assert forall j :: 0 <= j < |s| ==> (s + t)[j] == s[j];
    assert t != [] ==> (s + t)[|s|] == t[0];
  }

  lemma SplitStep(head: string, rest: string, sep: char)
    requires sep !in head
    ensures Split(head + ([sep] + rest), sep) == [head] + Split(rest, sep)
  {
    hide IndexOfAny;
    var s := head + ([sep] + rest);
    IndexInPrefix(head, [sep] + rest, {sep});
    assert s[..|head|] == head && s[|head|+1..] == rest;
  }

  /** Splitting undoes joining for pieces that avoid the separator. */
  lemma {:induction false} SplitOfJoin(pieces: seq<string>, sep: char)
    requires |pieces| > 0
    requires forall i :: 0 <= i < |pieces| ==> sep !in pieces[i]
    ensures Split(Join(pieces, sep), sep) == pieces
    decreases |pieces|
  {
    hide IndexOfAny;
    if |pieces| == 1 {
      IndexInPrefix(pieces[0], [], {sep});
      assert pieces[0] + [] == pieces[0];
    } else {
      var rest := Join(pieces[1..], sep);
      assert Join(pieces, sep) == pieces[0] + ([sep] + rest);
      SplitStep(pieces[0], rest, sep);
      SplitOfJoin(pieces[1..], sep);
    }
  }

  /** Joining undoes splitting, and no piece holds the separator. */
  lemma {:induction false} JoinOfSplit(s: string, sep: char)
    ensures Join(Split(s, sep), sep) == s
    ensures forall i :: 0 <= i < |Split(s, sep)| ==> sep !in Split(s, sep)[i]
    decreases |s|
  {
    var i := IndexOf(s, sep);
    if i < |s| {
      JoinOfSplit(s[i+1..], sep);
      assert s == s[..i] + [sep] + s[i+1..];
      assert Split(s, sep)[1..] == Split(s[i+1..], sep);
    }
  }

  // ---- Pieces and pairs ----

  /** What is known of any piece: without `=` it is a key with the value "1"; with one, key and
      value are what stands before and behind the first. */
  lemma PairOfExactly(piece: string)
    ensures '=' !in piece ==> PairOf(piece) == Pair(piece, "1")
    ensures '=' in piece ==>
      '=' !in PairOf(piece).key && PairOf(piece).key + "=" + PairOf(piece).value == piece
  {
    var i := IndexOf(piece, '=');
    if i < |piece| {
      assert piece == piece[..i] + "=" + piece[i+1..];
    }
  }

  // ---- Printing and parsing queries ----

  /** What a client means to send: a key alone, or a key with a value. */
  datatype Item = Bare(key: string) | Full(key: string, value: string)

  function Print(item: Item): string {
    match item
    case Bare(key) => key
    case Full(key, value) => key + "=" + value
  }

  /** A key alone stands for the value "1". */
  function Meaning(item: Item): Pair {
    match item
    case Bare(key) => Pair(key, "1")
    case Full(key, value) => Pair(key, value)
  }

  function PrintAll(items: seq<Item>): (pieces: seq<string>)
    ensures |pieces| == |items|
  {
    seq(|items|, i requires 0 <= i < |items| => Print(items[i]))
  }

  function Meanings(items: seq<Item>): (ps: seq<Pair>)
    ensures |ps| == |items|
  {
    seq(|items|, i requires 0 <= i < |items| => Meaning(items[i]))
  }

  function PrintQuery(items: seq<Item>): string {
    if items == [] then "" else Join(PrintAll(items), '&')
  }

  predicate Printable(item: Item) {
    '=' !in item.key && '&' !in item.key && (item.Full? ==> '&' !in item.value)
  }

  lemma PairOfPrint(item: Item)
    requires Printable(item)
    ensures '&' !in Print(item) && PairOf(Print(item)) == Meaning(item)
  {
    match item
    case Bare(key) => PairOfExactly(key);
    case Full(key, value) =>
      IndexInPrefix(key, "=" + value, {'='});
      assert Print(item) == key + ("=" + value);
  }

  lemma PairOfIsPrintable(piece: string)
    requires '&' !in piece
    ensures var p := PairOf(piece); '=' !in p.key && '&' !in p.key && '&' !in p.value
  {
  }

  /** Parsing gives back what was printed, keys alone and pairs in any mix, exactly when the list
      is not empty, no key holds `=` or `&`, and no value holds `&`. */
  lemma QueryRoundTrip(items: seq<Item>)
    ensures Pairs(PrintQuery(items)) == Meanings(items) <==>
      items != [] && forall i :: 0 <= i < |items| ==> Printable(items[i])
  {
    var query := PrintQuery(items);
    var pieces := Split(query, '&');
    JoinOfSplit(query, '&');
    if Pairs(query) == Meanings(items) {
      forall i | 0 <= i < |items| ensures Printable(items[i]) {
        PairOfIsPrintable(pieces[i]);
        assert Pairs(query)[i] == PairOf(pieces[i]) == Meaning(items[i]);
      }
    }
    if items != [] && forall i :: 0 <= i < |items| ==> Printable(items[i]) {
      forall i | 0 <= i < |items| ensures '&' !in PrintAll(items)[i] && PairOf(PrintAll(items)[i]) == Meaning(items[i]) {
        PairOfPrint(items[i]);
      }
      SplitOfJoin(PrintAll(items), '&');
    }
  }

  // ---- The map ----

  ghost predicate LastPair(ps: seq<Pair>, i: nat, key: string) {
    i < |ps| && ps[i].key == key && forall j :: i < j < |ps| ==> ps[j].key != key
  }

  predicate HasKey(ps: seq<Pair>, key: string) {
    exists i :: 0 <= i < |ps| && ps[i].key == key
  }

  /** Later pairs win: a key maps to the value of the last pair that has it. */
  lemma {:induction false} AssignExactly(m: map<string, string>, ps: seq<Pair>)
    ensures forall key :: key in Assign(m, ps) <==> key in m || HasKey(ps, key)
    ensures forall key, i: nat :: LastPair(ps, i, key) ==> key in Assign(m, ps) && Assign(m, ps)[key] == ps[i].value
    ensures forall key :: key in m && !HasKey(ps, key) ==> key in Assign(m, ps) && Assign(m, ps)[key] == m[key]
    decreases |ps|
  {
    if ps != [] {
      var rest := ps[1..];
      AssignExactly(m[ps[0].key := ps[0].value], rest);
      forall key ensures HasKey(ps, key) <==> key == ps[0].key || HasKey(rest, key) {
        if i :| 0 <= i < |rest| && rest[i].key == key { assert ps[i+1].key == key; }
        if i :| 0 <= i < |ps| && ps[i].key == key { if i > 0 { assert rest[i-1].key == key; } }
      }
      forall key, i: nat | LastPair(ps, i, key) ensures key in Assign(m, ps) && Assign(m, ps)[key] == ps[i].value {
        if i > 0 {
          assert LastPair(rest, i - 1, key);
        } else {
          assert !HasKey(rest, key);
        }
      }
    }
  }

  // ---- Requests ----

  predicate Free(s: string, chars: set<char>) {
    forall i :: 0 <= i < |s| ==> s[i] !in chars
  }

  /** Keys and values that survive the journey through a request. */
  predicate Sendable(items: seq<Item>) {
    items != [] && forall i :: 0 <= i < |items| ==> Printable(items[i]) && Free(Print(items[i]), {' ', '\r', '\n'})
  }

  lemma {:induction false} JoinFree(pieces: seq<string>, sep: char, chars: set<char>)
    requires |pieces| > 0 && sep !in chars && forall i :: 0 <= i < |pieces| ==> Free(pieces[i], chars)
    ensures Free(Join(pieces, sep), chars)
    decreases |pieces|
  {
    if |pieces| > 1 {
      JoinFree(pieces[1..], sep, chars);
    }
  }

  lemma QueryFree(items: seq<Item>)
    requires Sendable(items)
    ensures Free(PrintQuery(items), {' ', '\r', '\n'})
  {
    JoinFree(PrintAll(items), '&', {' ', '\r', '\n'});
  }

  /** What may follow the query: nothing, or anything that starts with a delimiter. */
  predicate Delimited(tail: string) {
    tail != [] ==> tail[0] in {' ', '\r', '\n'}
  }

  lemma ParseSent(query: string, tail: string)
    requires Free(query, {' ', '\r', '\n'}) && Delimited(tail)
    ensures ParseQuery(query + tail) == Assign(map[], Pairs(query))
  {
    IndexInPrefix(query, tail, DELIMITERS);
    assert CutAt(query + tail, DELIMITERS) == query;
  }

  /** What a cut leaves of a text that starts with `s`, when `s` has nothing to cut at. */
  lemma CutBehind(s: string, tail: string, c: char)
    requires Free(s, {c})
    ensures exists rest :: rest <= tail && CutAt(s + tail, {c}) == s + rest
  {
    var i := IndexOfAny(s + tail, {c});
    assert forall j :: 0 <= j < |s| ==> (s + tail)[j] == s[j];
    assert CutAt(s + tail, {c}) == s + tail[..i - |s|];
  }

  lemma PrefixDelimited(rest: string, tail: string)
    requires rest <= tail && Delimited(tail)
    ensures Delimited(rest)
  {
  }

  /** The first line of a request keeps everything up to its first delimiter. */
  lemma FirstLine(sent: string, tail: string)
    requires Free(sent, {'\r', '\n'}) && Delimited(tail)
    ensures exists rest :: Delimited(rest) && CutAt(CutAt(sent + tail, {'\r'}), {'\n'}) == sent + rest
  {
    hide CutAt;
    CutBehind(sent, tail, '\r');
    var rest1 :| rest1 <= tail && CutAt(sent + tail, {'\r'}) == sent + rest1;
    CutBehind(sent, rest1, '\n');
    var rest2 :| rest2 <= rest1 && CutAt(sent + rest1, {'\n'}) == sent + rest2;
    PrefixDelimited(rest2, tail);
  }

  lemma WordAtFront(word: string, rest: string)
    requires Free(word, {' '})
    ensures var s := word + (" " + rest); IndexOf(s, ' ') == |word| && s[..|word|] == word
  {
    IndexInPrefix(word, " " + rest, {' '});
  }

  lemma QueryAfterMark(head: string, query: string)
    requires Free(head, {'?'})
    ensures var line := head + ("?" + query);
      IndexOf(line, '?') == |head| && line[|head|+1..] == query
  {
    IndexInPrefix(head, "?" + query, {'?'});
  }

  /** A GET line is parsed to the pairs of whatever stands behind its first question mark. */
  lemma GetQuery(path: string, query: string, tail: string)
    requires Free(path, {'?', '\r', '\n'}) && Free(query, {' ', '\r', '\n'}) && Delimited(tail)
    ensures ParseRequest("GET " + path + "?" + query + tail) == Some(Assign(map[], Pairs(query)))
  {
    hide IndexOfAny, IndexOf, CutAt, Pairs, ParseQuery, Assign, Delimited;
    var head := "GET " + path;
    var sent := head + "?" + query;
    var s := "GET " + path + "?" + query + tail;
    assert s == sent + tail;
    assert s == "GET" + (" " + (path + "?" + query + tail));
    WordAtFront("GET", path + "?" + query + tail);
    assert Free(sent, {'\r', '\n'});
    FirstLine(sent, tail);
    var rest :| Delimited(rest) && CutAt(CutAt(s, {'\r'}), {'\n'}) == sent + rest;
    assert sent + rest == head + ("?" + (query + rest));
    QueryAfterMark(head, query + rest);
    ParseSent(query, rest);
  }

  /** A GET line with a printed query parses to the map of what was meant. */
  lemma GetRoundTrip(path: string, items: seq<Item>, tail: string)
    requires Free(path, {'?', '\r', '\n'}) && Sendable(items) && Delimited(tail)
    ensures ParseRequest("GET " + path + "?" + PrintQuery(items) + tail) == Some(Assign(map[], Meanings(items)))
  {
    hide ParseRequest, PrintQuery, Pairs, Assign;
    QueryFree(items);
    GetQuery(path, PrintQuery(items), tail);
    QueryRoundTrip(items);
  }

  /** Without a question mark in its first line a GET request has no arguments, whatever the
      lines behind it hold. */
  lemma GetWithoutQuery(path: string, tail: string)
    requires Free(path, {'?', '\r', '\n'}) && (tail != [] ==> tail[0] in {'\r', '\n'})
    ensures ParseRequest("GET " + path + tail) == Some(map[])
  {
    hide IndexOfAny, Pairs, ParseQuery, Assign, ParsePost;
    var line := "GET " + path;
    var s := line + tail;
    assert s == "GET" + (" " + (path + tail));
    WordAtFront("GET", path + tail);
    FirstLineAlone(line, tail);
    IndexInPrefix(line, [], {'?'});
    assert line + [] == line;
    assert "GET " + path + tail == s;
  }

  lemma FirstLineAlone(line: string, tail: string)
    requires Free(line, {'\r', '\n'}) && (tail != [] ==> tail[0] in {'\r', '\n'})
    ensures CutAt(CutAt(line + tail, {'\r'}), {'\n'}) == line
  {
    var i := IndexOfAny(line + tail, {'\r'});
    assert forall j :: 0 <= j < |line| ==> (line + tail)[j] == line[j];
    assert tail != [] ==> (line + tail)[|line|] == tail[0];
    var rest := tail[..i - |line|];
    assert CutAt(line + tail, {'\r'}) == line + rest;
    assert rest != [] ==> rest[0] == tail[0] == (line + tail)[|line|];
    IndexInPrefix(line, rest, {'\n'});
    assert (line + rest)[..|line|] == line;
  }

  lemma {:induction false} SubBehind(s: string, tail: string, pattern: string, i: nat)
    requires i <= |s| && IndexOfSub(s, pattern) == i && pattern <= s[i..] && pattern != ""
    ensures IndexOfSub(s + tail, pattern) == i && pattern <= (s + tail)[i..]
    decreases |s|
  {
    if i > 0 {
      assert s[1..][i-1..] == s[i..] && (s + tail)[1..] == s[1..] + tail;
      assert |pattern| <= |s| && (s + tail)[..|pattern|] == s[..|pattern|];
      SubBehind(s[1..], tail, pattern, i - 1);
      assert (s + tail)[i..] == (s[1..] + tail)[i-1..];
    } else {
      assert pattern == s[..|pattern|] == (s + tail)[..|pattern|];
    }
  }

  /** Headers that end where they seem to. */
  predicate HeadersEnd(headers: string) {
    IndexOfSub("POST " + headers + "\r\n\r\n", "\r\n\r\n") == |"POST " + headers|
  }

  /** A POST request with a body is parsed to the pairs of what its body starts with. */
  lemma PostBody(headers: string, query: string, tail: string)
    requires HeadersEnd(headers) && Free(query, {' ', '\r', '\n'}) && Delimited(tail)
    ensures ParseRequest("POST " + headers + "\r\n\r\n" + query + tail) ==
      Some(if query + tail == "" then map[] else Assign(map[], Pairs(query)))
  {
    hide IndexOfAny, IndexOf, IndexOfSub, CutAt, Pairs, ParseQuery, Assign, Delimited;
    var head := "POST " + headers + "\r\n\r\n";
    var body := query + tail;
    var s := "POST " + headers + "\r\n\r\n" + query + tail;
    var at := |"POST " + headers|;
    assert s == head + body;
    assert s == "POST" + (" " + (headers + END_OF_HEADERS + body));
    WordAtFront("POST", headers + END_OF_HEADERS + body);
    assert head[at..] == END_OF_HEADERS;
    SubBehind(head, body, END_OF_HEADERS, at);
    assert s[at + 4..] == body;
    ParseSent(query, tail);
  }

  /** A POST request parses its printed body. */
  lemma PostRoundTrip(headers: string, items: seq<Item>, tail: string)
    requires HeadersEnd(headers) && Sendable(items) && Delimited(tail) && PrintQuery(items) + tail != ""
    ensures ParseRequest("POST " + headers + "\r\n\r\n" + PrintQuery(items) + tail)
         == Some(Assign(map[], Meanings(items)))
  {
    hide ParseRequest, PrintQuery, Pairs, Assign, HeadersEnd;
    QueryFree(items);
    PostBody(headers, PrintQuery(items), tail);
    QueryRoundTrip(items);
  }

  // ---- Parse errors ----

  predicate Occurs(s: string, pattern: string) {
    exists i :: 0 <= i <= |s| && pattern <= s[i..]
  }

  lemma OccursUnfolds(s: string, pattern: string)
    requires s != []
    ensures Occurs(s, pattern) <==> pattern <= s || Occurs(s[1..], pattern)
  {
    var rest := s[1..];
    assert s[0..] == s;
    if i :| 0 <= i <= |s| && pattern <= s[i..] {
      if i > 0 { assert rest[i-1..] == s[i..]; }
    }
    if i :| 0 <= i <= |rest| && pattern <= rest[i..] { assert rest[i..] == s[i+1..]; }
  }

  /** The search finds the first occurrence, if there is one. */
  lemma {:induction false} SubExactly(s: string, pattern: string)
    requires pattern != ""
    ensures Contains(s, pattern) <==> Occurs(s, pattern)
    ensures forall j :: 0 <= j < IndexOfSub(s, pattern) ==> !(pattern <= s[j..])
    decreases |s|
  {
    hide Occurs;
    assert s[0..] == s;
    if pattern <= s {
      assert Occurs(s, pattern) by { OccursAt(s, pattern, 0); }
    } else if s == [] {
      NowhereInEmpty(pattern);
    } else {
      var rest := s[1..];
      SubExactly(rest, pattern);
      OccursUnfolds(s, pattern);
      assert s[IndexOfSub(s, pattern)..] == rest[IndexOfSub(rest, pattern)..];
      forall j | 0 <= j < IndexOfSub(s, pattern) ensures !(pattern <= s[j..]) {
        if j > 0 { assert s[j..] == rest[j-1..]; }
      }
    }
  }

  lemma OccursAt(s: string, pattern: string, i: nat)
    requires i <= |s| && pattern <= s[i..]
    ensures Occurs(s, pattern)
  {
  }

  lemma NowhereInEmpty(pattern: string)
    requires pattern != ""
    ensures !Occurs("", pattern)
  {
  }

  /** A request is answered with a parse error unless it starts with GET, or starts with POST
      and has an end of headers. */
  lemma ErrorsExactly(s: string)
    ensures ParseRequest(s) == None <==> !("GET " <= s) && !("POST " <= s && Occurs(s, "\r\n\r\n"))
  {
    hide IndexOfSub, ParseGet, ParseQuery;
    SubExactly(s, END_OF_HEADERS);
    StartsWithWord(s, "GET");
    StartsWithWord(s, "POST");
  }

  lemma StartsWithWord(s: string, word: string)
    requires ' ' !in word
    ensures var sp := IndexOf(s, ' '); word + " " <= s <==> sp < |s| && s[..sp] == word
  {
    hide IndexOfAny;
    var sp := IndexOf(s, ' ');
    if word + " " <= s {
      assert s == word + (" " + s[|word|+1..]);
      WordAtFront(word, s[|word|+1..]);
    }
    if sp < |s| && s[..sp] == word {
      assert s == word + " " + s[sp+1..];
    }
  }

  /** With distinct keys, the map holds exactly the pairs that were sent. */
  lemma DistinctPairs(ps: seq<Pair>)
    requires forall i, j :: 0 <= i < j < |ps| ==> ps[i].key != ps[j].key
    ensures forall key :: key in Assign(map[], ps) <==> HasKey(ps, key)
    ensures forall i :: 0 <= i < |ps| ==> ps[i].key in Assign(map[], ps) && Assign(map[], ps)[ps[i].key] == ps[i].value
  {
    AssignExactly(map[], ps);
    forall i | 0 <= i < |ps| ensures ps[i].key in Assign(map[], ps) && Assign(map[], ps)[ps[i].key] == ps[i].value {
      assert LastPair(ps, i, ps[i].key);
    }
  }
}
