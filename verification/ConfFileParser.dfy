/**
 The configuration loader: read blocks are cut into lines in a buffer that grows as needed, each
 line is recognised by walking over its characters, and its group or pair goes into the table.
 */
module ConfFileParser {
  import opened Buckets
  import opened ConfGrammar
  import ConfTable

  const MAX_LINE_LEN: nat := 512
  const LINE_STEP: nat := 25

  method LineIsComment(str: string) returns (yes: bool)
    ensures yes <==> ClassifyStripped(str) == Comment || (str != "" && str[0] == '\n')
  {
    yes := str == "" || str[0] == '#' || str[0] == '\n';
  }

  /** Walks over `[name]` and the blanks behind it. */
  method FindGrpName(str: string) returns (found: bool, name: string)
    ensures found <==> ClassifyStripped(str).Group?
    ensures found ==> ClassifyStripped(str) == Group(name)
  {
    name := "";
    if str == "" || str[0] != '[' {
      return false, name;
    }
    var gStart := 1;
    var i := 1;
    while i < |str| && str[i] != ']'
      invariant 1 <= i <= |str| && ']' !in str[..i]
    {
      i := i + 1;
    }
    IndexOfUnique(str, ']', i);
    if i == |str| {
      return false, name;
    }
    var gEnd := i - 1;
    ghost var after := str[i + 1..];
    i := i + 1;
    while i < |str| && (str[i] == ' ' || str[i] == '\t')
      invariant gEnd + 2 <= i <= |str|
      invariant forall k :: gEnd + 2 <= k < i ==> str[k] == ' ' || str[k] == '\t'
    {
      i := i + 1;
    }
    if i < |str| {
      assert after[i - gEnd - 2] == str[i];
      return false, name;
    }
    assert str[..i] == str && str[gEnd + 2..i] == after;
    var g := gStart;
    while g < |str| && g != gEnd && IsAlnum(str[g])
      invariant 1 <= g <= |str| && (gEnd >= 1 ==> g <= gEnd)
      invariant forall k :: 1 <= k < g ==> IsAlnum(str[k])
    {
      g := g + 1;
    }
    found := g < |str| && g == gEnd && IsAlnum(str[g]);
    if found {
      name := str[gStart..gEnd + 1];
    } else if gEnd >= 1 {
      assert str[1..gEnd + 1][g - 1] == str[g];
    }
  }

  method LineIsGrp(table: ConfTable.GroupTable, str: string, cur: Option<string>)
    returns (ok: bool, cur': Option<string>)
    requires table.Valid()
    modifies table.Repr
    ensures table.Valid() && fresh(table.Repr - old(table.Repr))
    ensures ok <==> ClassifyStripped(str).Group? && ClassifyStripped(str).name !in old(table.Contents())
    ensures var before := Conf(old(table.Contents()), cur);
            Conf(table.Contents(), cur') == if ok then Apply(before, ClassifyStripped(str)).0 else before
  {
    cur' := cur;
    var found, newGrp := FindGrpName(str);
    if !found {
      return false, cur;
    }
    ok := table.AddGrp(newGrp);
    if ok {
      cur' := Some(newGrp);
    }
  }

  /** Walks over the key up to the first `=`. */
  method FindKeyValue(str: string) returns (found: bool, key: string, val: string)
    ensures found <==> ClassifyStripped(str).Pair?
    ensures found ==> ClassifyStripped(str) == Pair(key, val)
    ensures found ==> key != ""
  {
    found, key, val := false, "", "";
    var equal := 0;
    while equal < |str| && str[equal] != '='
      invariant 0 <= equal <= |str| && '=' !in str[..equal]
    {
      equal := equal + 1;
    }
    IndexOfUnique(str, '=', equal);
    if equal == |str| || equal == 0 {
      return;
    }
    var i := 0;
    while i != equal && IsAlnum(str[i])
      invariant 0 <= i <= equal
      invariant forall k :: 0 <= k < i ==> IsAlnum(str[k])
    {
      i := i + 1;
    }
    if i == equal {
      assert str[0] != '[' && str[0] != '#';
      return true, str[..equal], str[equal + 1..];
    }
    assert str[..equal][i] == str[i];
  }

  method LineIsKeyValuePair(table: ConfTable.GroupTable, str: string, cur: Option<string>) returns (ok: bool)
    requires table.Valid()
    modifies table.Repr
    ensures table.Valid() && table.Repr == old(table.Repr)
    ensures ok <==> ClassifyStripped(str).Pair? && Apply(Conf(old(table.Contents()), cur), ClassifyStripped(str)).1
    ensures table.Contents() == if ok then Apply(Conf(old(table.Contents()), cur), ClassifyStripped(str)).0.table
                                else old(table.Contents())
  {
    if cur.None? || cur.value == "" {
      return false;
    }
    var found, key, val := FindKeyValue(str);
    if !found {
      return false;
    }
    ok := table.AddKeyValuePair(cur.value, key, val);
  }

  method ParseLine(table: ConfTable.GroupTable, line: string, cur: Option<string>)
    returns (ok: bool, cur': Option<string>)
    requires table.Valid()
    modifies table.Repr
    ensures table.Valid() && fresh(table.Repr - old(table.Repr))
    ensures (Conf(table.Contents(), cur'), ok) == Apply(Conf(old(table.Contents()), cur), Classify(line))
  {
    cur' := cur;
    var begin := 0;
    while begin < |line| && IsSpace(line[begin])
      invariant 0 <= begin <= |line| && Strip(line) == Strip(line[begin..])
    {
      begin := begin + 1;
    }
    var str := line[begin..];
    assert Strip(str) == str;
    var comment := LineIsComment(str);
    if comment {
      return true, cur;
    }
    ok, cur' := LineIsGrp(table, str, cur);
    if ok {
      return;
    }
    ok := LineIsKeyValuePair(table, str, cur');
  }

  /** Makes the buffer longer by one step, keeping what it holds, when it is full. */
  method Room(line: array<char>, lineLen: nat) returns (roomy: array<char>)
    requires lineLen <= line.Length
    ensures lineLen < roomy.Length && roomy[..lineLen] == line[..lineLen]
    ensures roomy == line || fresh(roomy)
  {
    if lineLen < line.Length {
      return line;
    }
    roomy := new char[line.Length + LINE_STEP];
    forall k | 0 <= k < line.Length {
      roomy[k] := line[k];
    }
  }

  /**
   One character of a block: the body of the loader's inner loop, once there is room for it. The
   terminator ends what is parsed, the text having no other.
   */
  method TakeChar(table: ConfTable.GroupTable, line: array<char>, lineLen: nat, c: char,
                  curGrp: Option<string>, hasCarriageRtn: bool)
    returns (lineLen': nat, curGrp': Option<string>, hasCarriageRtn': bool, ret: bool)
    requires table.Valid() && line !in table.Repr && lineLen < line.Length
    modifies table.Repr, line
    ensures table.Valid() && fresh(table.Repr - old(table.Repr)) && line !in table.Repr && lineLen' <= line.Length
    ensures Scan(Conf(table.Contents(), curGrp'), line[..lineLen'], hasCarriageRtn', ret) ==
            Feed(Scan(Conf(old(table.Contents()), curGrp), old(line[..lineLen]), hasCarriageRtn, true), c)
  {
    lineLen', curGrp', hasCarriageRtn', ret := lineLen, curGrp, hasCarriageRtn, true;
    if c == '\n' {
      hasCarriageRtn' := false;
      line[lineLen] := '\0';
      ret, curGrp' := ParseLine(table, line[..lineLen], curGrp);
      lineLen' := 0;
    } else if c == '\r' {
      hasCarriageRtn' := true;
    } else if hasCarriageRtn {
      ret := false;
    } else {
      line[lineLen] := c;
      lineLen' := lineLen + 1;
    }
  }

  /**
   Loads a file that `fread` delivers in these blocks: the verdict and the table are those of
   reading the whole text line by line, however it was cut. All writes are inside the buffer.
   */
  method ParseLoad(table: ConfTable.GroupTable, blocks: seq<string>) returns (ret: bool)
    requires table.Valid()
    requires forall b :: b in blocks ==> 0 < |b| <= MAX_LINE_LEN
    modifies table.Repr
    ensures table.Valid() && fresh(table.Repr - old(table.Repr))
    ensures var parsed := ParseText(Conf(old(table.Contents()), None), Concat(blocks));
            table.Contents() == parsed.0.table && ret == parsed.1
  {
    hide ConfTable.GroupTable.Valid, ConfTable.GroupTable.Contents, Feed, FeedAll, FeedBlocks, ParseText;
    ghost var start := Scan(Conf(table.Contents(), None), "", false, true);
    CuttingDoesNotMatter(start.conf, blocks, blocks);
    NothingFed(start);
    ret := true;
    var line := new char[0];
    var curGrp := None;
    var lineLen: nat := 0;
    var hasCarriageRtn := false;
    var n := 0;
    while n < |blocks| && ret
      invariant 0 <= n <= |blocks| && lineLen <= line.Length
      invariant table.Valid() && fresh(table.Repr - old(table.Repr)) && fresh(line) && line !in table.Repr
      invariant Scan(Conf(table.Contents(), curGrp), line[..lineLen], hasCarriageRtn, ret)
                == FeedBlocks(start, blocks[..n])
    {
      ghost var before := FeedBlocks(start, blocks[..n]);
      var buf := blocks[n];
      NothingFed(before);
      var i := 0;
      while i < |buf| && ret
        invariant 0 <= i <= |buf| && lineLen <= line.Length
        invariant table.Valid() && fresh(table.Repr - old(table.Repr)) && fresh(line) && line !in table.Repr
        invariant Scan(Conf(table.Contents(), curGrp), line[..lineLen], hasCarriageRtn, ret)
                  == FeedAll(before, buf[..i])
      {
        FeedOneMore(before, buf, i);
        line := Room(line, lineLen);
        lineLen, curGrp, hasCarriageRtn, ret := TakeChar(table, line, lineLen, buf[i], curGrp, hasCarriageRtn);
        i := i + 1;
      }
      AllOrRefused(before, buf, i);
      FeedOneBlock(start, blocks, n);
      n := n + 1;
    }
    RestIgnored(start, blocks, n);
  }

  lemma NothingFed(s: Scan)
    ensures FeedAll(s, "") == s && FeedBlocks(s, []) == s
  {
  }

  lemma FeedOneMore(s: Scan, buf: string, i: nat)
    requires i < |buf|
    ensures FeedAll(s, buf[..i + 1]) == Feed(FeedAll(s, buf[..i]), buf[i])
  {
    assert buf[..i + 1][..i] == buf[..i];
  }

  lemma FeedOneBlock(s: Scan, blocks: seq<string>, n: nat)
    requires n < |blocks|
    ensures FeedBlocks(s, blocks[..n + 1]) == FeedAll(FeedBlocks(s, blocks[..n]), blocks[n])
  {
    assert blocks[..n + 1][..n] == blocks[..n];
  }

  /** What is left of a block after a refusal changes nothing. */
  lemma AllOrRefused(s: Scan, buf: string, i: nat)
    requires i <= |buf| && (i < |buf| ==> !FeedAll(s, buf[..i]).ok)
    ensures FeedAll(s, buf) == FeedAll(s, buf[..i])
  {
    FeedInPieces(s, buf[..i], buf[i..]);
    assert buf[..i] + buf[i..] == buf;
    if i < |buf| {
      StopsWhenRefused(FeedAll(s, buf[..i]), buf[i..]);
    }
  }

  /** Blocks never read after a refusal would have changed nothing. */
  lemma {:induction false} RestIgnored(s: Scan, blocks: seq<string>, n: nat)
    requires n <= |blocks| && (n < |blocks| ==> !FeedBlocks(s, blocks[..n]).ok)
    ensures FeedBlocks(s, blocks) == FeedBlocks(s, blocks[..n])
    decreases |blocks|
  {
    if n == |blocks| {
      assert blocks[..n] == blocks;
    } else {
      var init := blocks[..|blocks| - 1];
      assert init[..n] == blocks[..n];
      RestIgnored(s, init, n);
      StopsWhenRefused(FeedBlocks(s, init), blocks[|blocks| - 1]);
    }
  }
}
