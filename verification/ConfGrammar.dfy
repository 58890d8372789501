/**
 What a configuration text means: the grammar of one line, the effect of a line on the map of
 maps, and the reading of a whole text line by line.
 */
module ConfGrammar {
  import opened Buckets

  type Table = map<string, map<string, string>>

  /** The table so far and the group the next pairs belong to. */
  datatype Conf = Conf(table: Table, cur: Option<string>)

  predicate IsSpace(c: char) {
    c == ' ' || '\t' <= c <= '\r'
  }

  predicate IsAlnum(c: char) {
    '0' <= c <= '9' || 'A' <= c <= 'Z' || 'a' <= c <= 'z'
  }

  predicate AlnumName(s: string) {
    s != "" && forall i :: 0 <= i < |s| ==> IsAlnum(s[i])
  }

  predicate Blank(s: string) {
    forall i :: 0 <= i < |s| ==> s[i] == ' ' || s[i] == '\t'
  }

  /** The text after its leading white space. */
  function Strip(s: string): string {
    if s != "" && IsSpace(s[0]) then Strip(s[1..]) else s
  }

  /** The first occurrence of `c`; the length when there is none. */
  function IndexOf(s: string, c: char): (n: nat)
    ensures n <= |s| && c !in s[..n] && (n < |s| ==> s[n] == c)
  {
    if s == "" || s[0] == c then 0 else 1 + IndexOf(s[1..], c)
  }

  datatype Line = Comment | Group(name: string) | Pair(key: string, value: string) | Bad

  /** A line already without its leading white space. */
  function ClassifyStripped(s: string): Line {
    if s == "" || s[0] == '#' then Comment
    else if s[0] == '[' then
      var e := IndexOf(s, ']');
      if e < |s| && Blank(s[e + 1..]) && AlnumName(s[1..e]) then Group(s[1..e]) else Bad
    else
      var e := IndexOf(s, '=');
      if e < |s| && AlnumName(s[..e]) then Pair(s[..e], s[e + 1..]) else Bad
  }

  function Classify(line: string): Line {
    ClassifyStripped(Strip(line))
  }

  /** The effect of a line, and whether it is accepted; a refused line changes nothing. */
  function Apply(c: Conf, l: Line): (Conf, bool) {
    match l
    case Comment => (c, true)
    case Group(name) =>
      if name in c.table then (c, false) else (Conf(c.table[name := map[]], Some(name)), true)
    case Pair(key, value) =>
      if c.cur.None? || c.cur.value == "" || c.cur.value !in c.table || key in c.table[c.cur.value] then (c, false)
      else (c.(table := c.table[c.cur.value := c.table[c.cur.value][key := value]]), true)
    case Bad => (c, false)
  }

  /** Carriage returns are allowed only at the end of a line. */
  predicate ReturnsLast(raw: string) {
    forall i :: IndexOf(raw, '\r') <= i < |raw| ==> raw[i] == '\r'
  }

  function Body(raw: string): string {
    raw[..IndexOf(raw, '\r')]
  }

  /** Line by line; a last line without its newline is checked for stray returns and dropped. */
  function ParseText(c: Conf, text: string): (Conf, bool)
    decreases |text|
  {
    var n := IndexOf(text, '\n');
    if !ReturnsLast(text[..n]) then (c, false)
    else if n == |text| then (c, true)
    else
      var (c', ok) := Apply(c, Classify(Body(text[..n])));
      if ok then ParseText(c', text[n + 1..]) else (c', false)
  }

  // --- The loader's automaton --------------------------------------------------------------------

  /** Where the loader is between two characters. */
  datatype Scan = Scan(conf: Conf, line: string, sawReturn: bool, ok: bool)

  function Feed(s: Scan, c: char): Scan {
    if !s.ok then s
    else if c == '\n' then
      var (conf, ok) := Apply(s.conf, Classify(s.line));
      Scan(conf, "", false, ok)
    else if c == '\r' then s.(sawReturn := true)
    else if s.sawReturn then s.(ok := false)
    else s.(line := s.line + [c])
  }

  function FeedAll(s: Scan, text: string): Scan {
    if text == "" then s else Feed(FeedAll(s, text[..|text| - 1]), text[|text| - 1])
  }

  lemma {:induction false} FeedInPieces(s: Scan, a: string, b: string)
    ensures FeedAll(s, a + b) == FeedAll(FeedAll(s, a), b)
  {
    if b == "" {
      assert a + b == a;
    } else {
      assert (a + b)[..|a + b| - 1] == a + b[..|b| - 1];
      FeedInPieces(s, a, b[..|b| - 1]);
    }
  }

  lemma {:induction false} StopsWhenRefused(s: Scan, text: string)
    requires !s.ok
    ensures FeedAll(s, text) == s
  {
    if text != "" {
      StopsWhenRefused(s, text[..|text| - 1]);
    }
  }

  lemma {:induction false} IndexOfUnique(s: string, c: char, n: nat)
    requires n <= |s| && c !in s[..n] && (n < |s| ==> s[n] == c)
    ensures IndexOf(s, c) == n
  {
    var k := IndexOf(s, c);
    assert forall i :: 0 <= i < n ==> s[..n][i] == s[i];
    assert forall i :: 0 <= i < k ==> s[..k][i] == s[i];
  }

  /** One more character on a line: what its body is, and whether its returns are last. */
  lemma OneMoreChar(raw: string, c: char)
    ensures Body(raw + [c]) == if '\r' in raw || c == '\r' then Body(raw) else raw + [c]
    ensures ReturnsLast(raw + [c]) <==> ReturnsLast(raw) && (c == '\r' || '\r' !in raw)
    ensures '\r' !in raw ==> Body(raw) == raw
  {
    var n, more, k := |raw|, raw + [c], IndexOf(raw, '\r');
    assert forall i :: 0 <= i < n ==> more[i] == raw[i];
    assert k == n ==> raw[..n] == raw;
    IndexOfUnique(more, '\r', if k < n || c == '\r' then k else n + 1);
    assert more[..k] == raw[..k];
    if k < n {
      assert raw[k] == more[k] == '\r' && more[n] == c;
    }
  }

  /** Feeding characters of one line collects its body, until a return is followed by another. */
  lemma {:induction false} FeedLine(conf: Conf, raw: string)
    requires '\n' !in raw
    ensures var s := FeedAll(Scan(conf, "", false, true), raw);
            && s.conf == conf
            && (s.ok <==> ReturnsLast(raw))
            && (s.ok ==> s.line == Body(raw) && (s.sawReturn <==> '\r' in raw))
  {
    if raw != "" {
      var n := |raw| - 1;
      var init, last := raw[..n], raw[n];
      assert raw == init + [last];
      FeedLine(conf, init);
      hide ReturnsLast, Body;
      OneMoreChar(init, last);
    }
  }

  /** The character-by-character loader reads a text exactly as the line-by-line reading does. */
  lemma {:induction false} FeedIsParseText(conf: Conf, text: string)
    ensures var s := FeedAll(Scan(conf, "", false, true), text);
            (s.conf, s.ok) == ParseText(conf, text)
    decreases |text|
  {
    var start, n := Scan(conf, "", false, true), IndexOf(text, '\n');
    FeedLine(conf, text[..n]);
    if n == |text| {
      assert text[..n] == text;
    } else {
      var rest := text[n + 1..];
      assert text == text[..n] + [text[n]] + rest;
      FeedInPieces(start, text[..n] + [text[n]], rest);
      assert (text[..n] + [text[n]])[..n] == text[..n];
      var s := FeedAll(start, text[..n] + [text[n]]);
      if s.ok {
        FeedIsParseText(s.conf, rest);
      } else {
        StopsWhenRefused(s, rest);
      }
    }
  }

  function Concat(blocks: seq<string>): string {
    if blocks == [] then "" else Concat(blocks[..|blocks| - 1]) + blocks[|blocks| - 1]
  }

  /** Feed the blocks one after another, stopping at the first refusal. */
  function FeedBlocks(s: Scan, blocks: seq<string>): Scan {
    if blocks == [] then s else FeedAll(FeedBlocks(s, blocks[..|blocks| - 1]), blocks[|blocks| - 1])
  }

  lemma {:induction false} BlocksAreText(s: Scan, blocks: seq<string>)
    ensures FeedBlocks(s, blocks) == FeedAll(s, Concat(blocks))
  {
    if blocks != [] {
      BlocksAreText(s, blocks[..|blocks| - 1]);
      FeedInPieces(s, Concat(blocks[..|blocks| - 1]), blocks[|blocks| - 1]);
    }
  }

  /** However a text is cut into blocks, the verdict and the table are those of the whole text. */
  lemma CuttingDoesNotMatter(conf: Conf, blocks: seq<string>, blocks': seq<string>)
    requires Concat(blocks) == Concat(blocks')
    ensures FeedBlocks(Scan(conf, "", false, true), blocks) == FeedBlocks(Scan(conf, "", false, true), blocks')
    ensures var s := FeedBlocks(Scan(conf, "", false, true), blocks);
            (s.conf, s.ok) == ParseText(conf, Concat(blocks))
  {
    BlocksAreText(Scan(conf, "", false, true), blocks);
    BlocksAreText(Scan(conf, "", false, true), blocks');
    FeedIsParseText(conf, Concat(blocks));
  }

  // --- Round trip ----------------------------------------------------------------------------------

  type Pairs = seq<(string, string)>
  type Groups = seq<(string, Pairs)>

  function RenderPairs(ps: Pairs): string
    decreases |ps|
  {
    if ps == [] then "" else ps[0].0 + "=" + ps[0].1 + "\n" + RenderPairs(ps[1..])
  }

  function Render(gs: Groups): string
    decreases |gs|
  {
    if gs == [] then "" else "[" + gs[0].0 + "]\n" + RenderPairs(gs[0].1) + Render(gs[1..])
  }

  /** A value is any text on one line. */
  predicate OneLine(s: string) {
    '\n' !in s && '\r' !in s
  }

  predicate ValidPairs(ps: Pairs) {
    && (forall i :: 0 <= i < |ps| ==> AlnumName(ps[i].0) && OneLine(ps[i].1))
    && (forall i, j :: 0 <= i < j < |ps| ==> ps[i].0 != ps[j].0)
  }

  predicate ValidGroups(gs: Groups) {
    && (forall i :: 0 <= i < |gs| ==> AlnumName(gs[i].0) && ValidPairs(gs[i].1))
    && (forall i, j :: 0 <= i < j < |gs| ==> gs[i].0 != gs[j].0)
  }

  function WithPairs(m: map<string, string>, ps: Pairs): map<string, string>
    decreases |ps|
  {
    if ps == [] then m else WithPairs(m[ps[0].0 := ps[0].1], ps[1..])
  }

  function WithGroups(t: Table, gs: Groups): Table
    decreases |gs|
  {
    if gs == [] then t else WithGroups(t[gs[0].0 := WithPairs(map[], gs[0].1)], gs[1..])
  }

  /** Reading one clean line, then the rest. */
  lemma ParseOneLine(c: Conf, line: string, rest: string)
    requires OneLine(line)
    ensures ParseText(c, line + "\n" + rest) ==
            var (c', ok) := Apply(c, Classify(line));
            if ok then ParseText(c', rest) else (c', false)
  {
    var text := line + "\n" + rest;
    IndexOfUnique(text, '\n', |line|);
    assert text[..|line|] == line && text[|line| + 1..] == rest;
    IndexOfUnique(line, '\r', |line|);
    assert Body(line) == line;
  }

  lemma StripName(s: string)
    requires s != "" && !IsSpace(s[0])
    ensures Strip(s) == s
  {
  }

  lemma ClassifyGroupLine(name: string)
    requires AlnumName(name)
    ensures OneLine("[" + name + "]") && Classify("[" + name + "]") == Group(name)
  {
    var s := "[" + name + "]";
    assert forall i :: 0 <= i < |name| ==> name[i] != ']' && name[i] != '\n' && name[i] != '\r';
    StripName(s);
    IndexOfUnique(s, ']', 1 + |name|);
    assert s[1..1 + |name|] == name;
  }

  lemma ClassifyPairLine(key: string, value: string)
    requires AlnumName(key) && OneLine(value)
    ensures OneLine(key + "=" + value) && Classify(key + "=" + value) == Pair(key, value)
  {
    var s := key + "=" + value;
    assert forall i :: 0 <= i < |key| ==> key[i] != '=' && key[i] != '\n' && key[i] != '\r';
    assert s[0] == key[0];
    StripName(s);
    IndexOfUnique(s, '=', |key|);
    assert s[..|key|] == key && s[|key| + 1..] == value;
  }

  lemma {:induction false} ParseRenderedPairs(c: Conf, ps: Pairs, rest: string)
    requires c.cur.Some? && c.cur.value != "" && c.cur.value in c.table
    requires ValidPairs(ps) && forall i :: 0 <= i < |ps| ==> ps[i].0 !in c.table[c.cur.value]
    ensures ParseText(c, RenderPairs(ps) + rest) ==
            ParseText(c.(table := c.table[c.cur.value := WithPairs(c.table[c.cur.value], ps)]), rest)
    decreases |ps|
  {
    hide ParseText, Classify, AlnumName, OneLine;
    var g := c.cur.value;
    if ps == [] {
      assert RenderPairs(ps) + rest == rest;
      assert c.table[g := c.table[g]] == c.table;
    } else {
      var line, more := ps[0].0 + "=" + ps[0].1, RenderPairs(ps[1..]) + rest;
      assert RenderPairs(ps) + rest == line + "\n" + more;
      ClassifyPairLine(ps[0].0, ps[0].1);
      ParseOneLine(c, line, more);
      var c1 := c.(table := c.table[g := c.table[g][ps[0].0 := ps[0].1]]);
      ParseRenderedPairs(c1, ps[1..], rest);
      assert c1.table[g := WithPairs(c1.table[g], ps[1..])] == c.table[g := WithPairs(c.table[g], ps)];
    }
  }

  lemma ParseRenderedGroup(c: Conf, name: string, ps: Pairs, rest: string)
    requires AlnumName(name) && name !in c.table && ValidPairs(ps)
    ensures ParseText(c, "[" + name + "]\n" + RenderPairs(ps) + rest) ==
            ParseText(Conf(c.table[name := WithPairs(map[], ps)], Some(name)), rest)
  {
    hide ParseText, Classify, OneLine, RenderPairs, WithPairs;
    var more := RenderPairs(ps) + rest;
    assert "[" + name + "]\n" + RenderPairs(ps) + rest == ("[" + name + "]") + "\n" + more;
    ClassifyGroupLine(name);
    ParseOneLine(c, "[" + name + "]", more);
    var c1 := Conf(c.table[name := map[]], Some(name));
    ParseRenderedPairs(c1, ps, rest);
    assert c1.table[name := WithPairs(map[], ps)] == c.table[name := WithPairs(map[], ps)];
  }

  lemma NothingToParse(c: Conf)
    ensures ParseText(c, "") == (c, true)
  {
  }

  lemma {:induction false} ParseRendered(c: Conf, gs: Groups)
    requires ValidGroups(gs) && forall i :: 0 <= i < |gs| ==> gs[i].0 !in c.table
    ensures ParseText(c, Render(gs)).1
    ensures ParseText(c, Render(gs)).0.table == WithGroups(c.table, gs)
    decreases |gs|
  {
    hide ParseText, RenderPairs, WithPairs;
    if gs == [] {
      NothingToParse(c);
    } else {
      ParseRenderedGroup(c, gs[0].0, gs[0].1, Render(gs[1..]));
      ParseRendered(Conf(c.table[gs[0].0 := WithPairs(map[], gs[0].1)], Some(gs[0].0)), gs[1..]);
    }
  }

  lemma {:induction false} WithPairsIs(m: map<string, string>, ps: Pairs)
    requires forall i, j :: 0 <= i < j < |ps| ==> ps[i].0 != ps[j].0
    ensures forall k :: k in WithPairs(m, ps) <==> k in m || exists i :: 0 <= i < |ps| && ps[i].0 == k
    ensures forall i :: 0 <= i < |ps| ==> WithPairs(m, ps)[ps[i].0] == ps[i].1
    ensures forall k :: k in m && (forall i :: 0 <= i < |ps| ==> ps[i].0 != k) ==> WithPairs(m, ps)[k] == m[k]
    decreases |ps|
  {
    if ps != [] {
      WithPairsIs(m[ps[0].0 := ps[0].1], ps[1..]);
      assert forall i :: 1 <= i < |ps| ==> ps[i] == ps[1..][i - 1];
    }
  }

  lemma {:induction false} WithGroupsIs(t: Table, gs: Groups)
    requires forall i, j :: 0 <= i < j < |gs| ==> gs[i].0 != gs[j].0
    ensures forall g :: g in WithGroups(t, gs) <==> g in t || exists i :: 0 <= i < |gs| && gs[i].0 == g
    ensures forall i :: 0 <= i < |gs| ==> WithGroups(t, gs)[gs[i].0] == WithPairs(map[], gs[i].1)
    ensures forall g :: g in t && (forall i :: 0 <= i < |gs| ==> gs[i].0 != g) ==> WithGroups(t, gs)[g] == t[g]
    decreases |gs|
  {
    if gs != [] {
      WithGroupsIs(t[gs[0].0 := WithPairs(map[], gs[0].1)], gs[1..]);
      assert forall i :: 1 <= i < |gs| ==> gs[i] == gs[1..][i - 1];
    }
  }

  /** The map holds exactly these groups, each with exactly these pairs. */
  ghost predicate Holds(t: Table, gs: Groups) {
    && (forall g :: g in t <==> exists i :: 0 <= i < |gs| && gs[i].0 == g)
    && (forall i :: 0 <= i < |gs| ==> HoldsPairs(t[gs[i].0], gs[i].1))
  }

  ghost predicate HoldsPairs(m: map<string, string>, ps: Pairs) {
    && (forall k :: k in m <==> exists i :: 0 <= i < |ps| && ps[i].0 == k)
    && (forall i :: 0 <= i < |ps| ==> m[ps[i].0] == ps[i].1)
  }

  /** Any configuration with alphanumeric names, written out, parses back to the same map of maps. */
  lemma {:induction false} RoundTrip(gs: Groups)
    requires ValidGroups(gs)
    ensures ParseText(Conf(map[], None), Render(gs)).1
    ensures Holds(ParseText(Conf(map[], None), Render(gs)).0.table, gs)
  {
    ParseRendered(Conf(map[], None), gs);
    WithGroupsIs(map[], gs);
    forall i | 0 <= i < |gs|
      ensures HoldsPairs(WithPairs(map[], gs[i].1), gs[i].1)
    {
      WithPairsIs(map[], gs[i].1);
    }
  }

  // --- Lines -------------------------------------------------------------------------------------

  predicate Spaces(s: string) {
    forall i :: 0 <= i < |s| ==> IsSpace(s[i])
  }

  /** Names are made of digits and letters; blanks and the control characters 9 to 13 are skipped. */
  lemma CharacterClasses(c: char)
    ensures IsAlnum(c) <==> 48 <= c as int <= 57 || 65 <= c as int <= 90 || 97 <= c as int <= 122
    ensures IsSpace(c) <==> c as int == 32 || 9 <= c as int <= 13
  {
  }

  lemma {:induction false} StripSplits(line: string) returns (indent: string)
    ensures line == indent + Strip(line) && Spaces(indent)
    ensures Strip(line) == "" || !IsSpace(Strip(line)[0])
  {
    if line != "" && IsSpace(line[0]) {
      var more := StripSplits(line[1..]);
      indent := [line[0]] + more;
      assert line == [line[0]] + line[1..];
    } else {
      indent := "";
    }
  }

  /** Leading white space is skipped, whatever follows it. */
  lemma {:induction false} StripSkips(indent: string, line: string)
    requires Spaces(indent)
    ensures Strip(indent + line) == Strip(line)
  {
    if indent == "" {
      assert indent + line == line;
    } else {
      assert (indent + line)[1..] == indent[1..] + line;
      StripSkips(indent[1..], line);
    }
  }

  lemma {:induction false} StripOf(indent: string, line: string)
    requires Spaces(indent) && (line == "" || !IsSpace(line[0]))
    ensures Strip(indent + line) == line
  {
    StripSkips(indent, line);
  }

  /** A comment is white space, and then nothing or a `#` and anything. */
  lemma CommentLineIff(line: string)
    ensures Classify(line) == Comment <==>
            exists indent, body :: line == indent + body && Spaces(indent) && (body == "" || body[0] == '#')
  {
    var start := StripSplits(line);
    if Classify(line) == Comment {
      assert line == start + Strip(line);
    }
    if indent, body :| line == indent + body && Spaces(indent) && (body == "" || body[0] == '#') {
      StripOf(indent, body);
    }
  }

  lemma IsGroupLine(indent: string, name: string, tail: string)
    requires AlnumName(name) && Spaces(indent) && Blank(tail)
    ensures Classify(indent + "[" + name + "]" + tail) == Group(name)
  {
    var body := "[" + name + "]" + tail;
    assert indent + "[" + name + "]" + tail == indent + body;
    StripOf(indent, body);
    assert forall i :: 0 <= i < |name| ==> name[i] != ']';
    IndexOfUnique(body, ']', 1 + |name|);
    assert body[1..1 + |name|] == name && body[|name| + 2..] == tail;
  }

  lemma BracketedParts(s: string, name: string) returns (tail: string)
    requires ClassifyStripped(s) == Group(name)
    ensures AlnumName(name) && Blank(tail) && s == "[" + name + "]" + tail
  {
    var e := IndexOf(s, ']');
    tail := s[e + 1..];
    assert s == s[..1] + s[1..e] + s[e..e + 1] + tail;
  }

  lemma FourParts(a: string, b: string, c: string, d: string, e: string)
    ensures a + (b + c + d + e) == a + b + c + d + e
  {
    assert a + (b + c + d) == a + b + c + d;
  }

  lemma GroupLineParts(line: string, name: string) returns (indent: string, tail: string)
    requires Classify(line) == Group(name)
    ensures AlnumName(name) && line == indent + "[" + name + "]" + tail && Spaces(indent) && Blank(tail)
  {
    indent := StripSplits(line);
    tail := BracketedParts(Strip(line), name);
    hide Strip, ClassifyStripped, AlnumName, Blank, Spaces;
    FourParts(indent, "[", name, "]", tail);
  }

  /** A group line is white space, a name of letters and digits in brackets, and blanks. */
  lemma GroupLineIff(line: string, name: string)
    ensures Classify(line) == Group(name) <==>
            AlnumName(name) && exists indent, tail ::
              line == indent + "[" + name + "]" + tail && Spaces(indent) && Blank(tail)
  {
    hide Classify, AlnumName, Spaces, Blank;
    if Classify(line) == Group(name) {
      var indent, tail := GroupLineParts(line, name);
    }
    if AlnumName(name) {
      if indent, tail :| line == indent + "[" + name + "]" + tail && Spaces(indent) && Blank(tail) {
        IsGroupLine(indent, name, tail);
      }
    }
  }

  lemma IsPairLine(indent: string, key: string, value: string)
    requires AlnumName(key) && Spaces(indent)
    ensures Classify(indent + key + "=" + value) == Pair(key, value)
  {
    var body := key + "=" + value;
    assert indent + key + "=" + value == indent + body;
    assert body[0] == key[0];
    StripOf(indent, body);
    assert forall i :: 0 <= i < |key| ==> key[i] != '=';
    IndexOfUnique(body, '=', |key|);
    assert body[..|key|] == key && body[|key| + 1..] == value;
  }

  lemma PairLineParts(line: string, key: string, value: string) returns (indent: string)
    requires Classify(line) == Pair(key, value)
    ensures AlnumName(key) && line == indent + key + "=" + value && Spaces(indent)
  {
    var s := Strip(line);
    indent := StripSplits(line);
    hide Strip;
    assert s == key + "=" + value;
  }

  /** A pair is white space, a key of letters and digits, `=`, and all the rest as its value. */
  lemma PairLineIff(line: string, key: string, value: string)
    ensures Classify(line) == Pair(key, value) <==>
            AlnumName(key) && exists indent :: line == indent + key + "=" + value && Spaces(indent)
  {
    hide Classify, AlnumName, Spaces;
    if Classify(line) == Pair(key, value) {
      var indent := PairLineParts(line, key, value);
    }
    if AlnumName(key) {
      if indent :| line == indent + key + "=" + value && Spaces(indent) {
        IsPairLine(indent, key, value);
      }
    }
  }

  // --- Lines in a text ---------------------------------------------------------------------------

  /** A text that ends where a line does. */
  predicate WholeLines(text: string) {
    text == "" || text[|text| - 1] == '\n'
  }

  /** Reading whole lines and then the rest is reading all of it. */
  lemma ParseInPieces(c: Conf, a: string, b: string)
    requires WholeLines(a)
    ensures ParseText(c, a + b) ==
            var (c', ok) := ParseText(c, a); if ok then ParseText(c', b) else (c', false)
  {
    var start := Scan(c, "", false, true);
    var s := FeedAll(start, a);
    FeedIsParseText(c, a + b);
    FeedIsParseText(c, a);
    FeedInPieces(start, a, b);
    hide ParseText, Feed;
    if s.ok {
      EndOfLine(start, a);
      FeedIsParseText(s.conf, b);
    } else {
      StopsWhenRefused(s, b);
    }
  }

  lemma EndOfLine(s: Scan, a: string)
    requires WholeLines(a) && s == Scan(s.conf, "", false, true)
    ensures var s' := FeedAll(s, a); s'.ok ==> s' == Scan(s'.conf, "", false, true)
  {
    if a != "" && !FeedAll(s, a[..|a| - 1]).ok {
      StopsWhenRefused(FeedAll(s, a[..|a| - 1]), [a[|a| - 1]]);
    }
  }

  /** A comment line anywhere in a text changes neither the table nor the verdict. */
  lemma CommentChangesNothing(c: Conf, a: string, line: string, b: string)
    requires WholeLines(a) && OneLine(line) && Classify(line) == Comment
    ensures ParseText(c, a + line + "\n" + b) == ParseText(c, a + b)
  {
    ParseInPieces(c, a, line + "\n" + b);
    ParseInPieces(c, a, b);
    assert a + line + "\n" + b == a + (line + "\n" + b);
    var (c1, ok) := ParseText(c, a);
    ParseOneLine(c1, line, b);
    hide ParseText, Classify;
  }

  /** Nor does white space at the start of a line. */
  lemma IndentChangesNothing(c: Conf, a: string, indent: string, line: string, b: string)
    requires WholeLines(a) && OneLine(line) && Spaces(indent) && OneLine(indent)
    ensures ParseText(c, a + indent + line + "\n" + b) == ParseText(c, a + line + "\n" + b)
  {
    ParseInPieces(c, a, indent + line + "\n" + b);
    ParseInPieces(c, a, line + "\n" + b);
    assert a + indent + line + "\n" + b == a + (indent + line + "\n" + b);
    assert a + line + "\n" + b == a + (line + "\n" + b);
    var (c1, ok) := ParseText(c, a);
    StripSkips(indent, line);
    ParseOneLine(c1, indent + line, b);
    ParseOneLine(c1, line, b);
    hide ParseText, Strip;
  }

  /** A line that is refused ends the reading: the text is refused, with the table so far. */
  lemma RefusedLineEndsIt(c: Conf, a: string, line: string, b: string)
    requires WholeLines(a) && OneLine(line) && ParseText(c, a).1
    requires Apply(ParseText(c, a).0, Classify(line)) == (ParseText(c, a).0, false)
    ensures ParseText(c, a + line + "\n" + b) == (ParseText(c, a).0, false)
  {
    hide ParseText, Classify, Apply, OneLine;
    assert a + line + "\n" + b == a + (line + "\n" + b);
    ParseInPieces(c, a, line + "\n" + b);
    ParseOneLine(ParseText(c, a).0, line, b);
  }

  /** A group that is there already is refused, whatever follows, and what it holds stays. */
  lemma RepeatedGroupRefused(c: Conf, a: string, name: string, b: string)
    requires WholeLines(a) && ParseText(c, a).1 && name in ParseText(c, a).0.table && AlnumName(name)
    ensures ParseText(c, a + "[" + name + "]" + "\n" + b) == (ParseText(c, a).0, false)
  {
    hide ParseText, Classify, OneLine, AlnumName;
    var line := "[" + name + "]";
    ClassifyGroupLine(name);
    RefusedLineEndsIt(c, a, line, b);
    assert a + "[" + name + "]" == a + line;
  }

  /** So is a key its group has already, and a pair before any group. */
  lemma RepeatedKeyRefused(c: Conf, a: string, key: string, value: string, b: string)
    requires WholeLines(a) && ParseText(c, a).1 && AlnumName(key) && OneLine(value)
    requires var c1 := ParseText(c, a).0;
             c1.cur.None? || (c1.cur.value in c1.table && key in c1.table[c1.cur.value])
    ensures ParseText(c, a + key + "=" + value + "\n" + b) == (ParseText(c, a).0, false)
  {
    hide ParseText, Classify, OneLine, AlnumName;
    var line := key + "=" + value;
    ClassifyPairLine(key, value);
    RefusedLineEndsIt(c, a, line, b);
    assert a + key + "=" + value == a + line;
  }

  /** A carriage return before anything but its like or the end of the line is refused. */
  lemma StrayReturnRefused(c: Conf, a: string, line: string, next: char, b: string)
    requires WholeLines(a) && '\n' !in line && next != '\n' && next != '\r'
    requires ParseText(c, a).1
    ensures ParseText(c, a + line + "\r" + [next] + b) == (ParseText(c, a).0, false)
  {
    var raw := line + "\r" + [next];
    ParseInPieces(c, a, raw + b);
    assert a + line + "\r" + [next] + b == a + (raw + b);
    var (c1, ok) := ParseText(c, a);
    var start := Scan(c1, "", false, true);
    FeedLine(c1, raw);
    OneMoreChar(line + "\r", next);
    FeedInPieces(start, raw, b);
    StopsWhenRefused(FeedAll(start, raw), b);
    FeedIsParseText(c1, raw + b);
    hide ParseText, FeedAll;
  }

  /** A last line without its newline is dropped. */
  lemma UnfinishedLineDropped(c: Conf, a: string, line: string)
    requires WholeLines(a) && OneLine(line) && ParseText(c, a).1
    ensures ParseText(c, a + line) == ParseText(c, a)
  {
    ParseInPieces(c, a, line);
    IndexOfUnique(line, '\n', |line|);
    IndexOfUnique(line, '\r', |line|);
    assert line[..|line|] == line;
  }
}
