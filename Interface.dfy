// Text handling of the old interface (src/interface.cpp): word positions for
// double-click selection, the swear filter, the save-info and search-result
// parsers for the server's line-based replies, and the console history cap.
module Interface {
  import opened Wrappers
  import opened Defines
  import opened CText

  // findWordPosition

  /** strcspn(s + t, spaces): the length of the run from t holding no separator. */
  function Cspn(s: string, t: nat, spaces: string): (w: nat)
    requires t <= |s|
    ensures t + w <= |s| && (t + w < |s| ==> s[t + w] in spaces)
    ensures forall m :: t <= m < t + w ==> s[m] !in spaces
    decreases |s| - t
  {
    if t < |s| && s[t] !in spaces then 1 + Cspn(s, t + 1, spaces) else 0
  }

  /** The loop of findWordPosition from offset t, w being the length of the
      last word seen: the first word whose end is at or past pos; when there
      is none, t and t plus the last word's length. */
  function WordScan(s: string, pos: int, spaces: string, t: nat, w: nat): (int, int)
    requires t <= |s| + 1
    decreases |s| + 1 - t
  {
    if t < |s| then
      var w' := Cspn(s, t, spaces);
      if t + w' >= pos then (t, t + w') else WordScan(s, pos, spaces, t + w' + 1, w')
    else (t, t + w)
  }

  /** findWordPosition: the bounds of the word at position in s. */
  method FindWordPosition(s: string, position: int, spaces: string) returns (cursorStart: int, cursorEnd: int)
    ensures (cursorStart, cursorEnd) == WordScan(s, position, spaces, 0, 0)
  {
    var wordLength, totalLength := 0, 0;
    while totalLength < |s|
      invariant totalLength <= |s| + 1
      invariant WordScan(s, position, spaces, totalLength, wordLength) == WordScan(s, position, spaces, 0, 0)
      decreases |s| + 1 - totalLength
    {
      wordLength := Cspn(s, totalLength, spaces);
      if totalLength + wordLength >= position {
        return totalLength, totalLength + wordLength;
      }
      totalLength := totalLength + wordLength + 1;
    }
    cursorStart, cursorEnd := totalLength, totalLength + wordLength;
  }

  /** After a text ending in a separator, the loop ends with the last word's
      length still in hand and reports a word reaching past the text: for "ab "
      at position 3 the word is [3, 5) in a text of 3 characters. */
  lemma WordPastEnd()
    ensures WordScan("ab ", 3, " ", 0, 0) == (3, 5)
  {
    assert Cspn("ab ", 0, " ") == 2 by {
      assert Cspn("ab ", 2, " ") == 0;
    }
  }

  /** The word position with the empty word after a final separator. */
  function WordAt(s: string, pos: int, spaces: string, t: nat): (int, int)
    requires t <= |s| + 1
    decreases |s| + 1 - t
  {
    if t < |s| then
      var w := Cspn(s, t, spaces);
      if t + w >= pos then (t, t + w) else WordAt(s, pos, spaces, t + w + 1)
    else (|s|, |s|)
  }

  /** For a position in the text, WordAt gives a word of s: it lies within s,
      holds no separator, starts at 0 or after a separator, ends at the end or
      at a separator, and is the first word ending at or after pos (every
      separator before it lies before pos). */
  lemma {:induction false} WordAtIsWord(s: string, pos: int, spaces: string, t: nat)
    requires 0 <= pos <= |s| && t <= |s| + 1
    requires t == 0 || (t <= |s| && s[t - 1] in spaces)
    requires forall k :: 0 <= k < t && k < |s| && s[k] in spaces ==> k < pos
    ensures var (a, b) := WordAt(s, pos, spaces, t);
      0 <= a <= b <= |s| &&
      (forall m :: a <= m < b ==> s[m] !in spaces) &&
      (a == 0 || s[a - 1] in spaces) && (b == |s| || s[b] in spaces) &&
      b >= pos &&
      forall k :: 0 <= k < a && s[k] in spaces ==> k < pos
    decreases |s| + 1 - t
  {
    if t < |s| {
      var w := Cspn(s, t, spaces);
      if t + w < pos {
        WordAtIsWord(s, pos, spaces, t + w + 1);
      }
    }
  }

  /** Except after a final separator, the code's answer is WordAt's. */
  lemma {:induction false} WordScanAgrees(s: string, pos: int, spaces: string, t: nat, w: nat)
    requires t <= |s| + 1
    ensures WordScan(s, pos, spaces, t, w).0 == WordAt(s, pos, spaces, t).0 || WordScan(s, pos, spaces, t, w).0 == |s| + 1
    ensures WordAt(s, pos, spaces, t).1 < |s| ==> WordScan(s, pos, spaces, t, w) == WordAt(s, pos, spaces, t)
    decreases |s| + 1 - t
  {
    if t < |s| {
      var w' := Cspn(s, t, spaces);
      if t + w' < pos {
        WordScanAgrees(s, pos, spaces, t + w' + 1, w');
      }
    }
  }

  // CheckSwearing

  /** std::string::find(word) != npos. */
  predicate Contains(text: string, word: string)
  {
    exists i :: 0 <= i <= |text| && OccursAt(text, word, i)
  }

  predicate OccursAt(text: string, word: string, i: nat)
  {
    i + |word| <= |text| && text[i..i + |word|] == word
  }

  /** CheckSwearing: whether some word of the filter list, passed in as words,
      occurs in the text. */
  method CheckSwearing(text: string, words: seq<string>) returns (r: bool)
    ensures r <==> exists w :: w in words && Contains(text, w)
  {
    var k := 0;
    while k < |words|
      invariant 0 <= k <= |words|
      invariant forall m :: 0 <= m < k ==> !Contains(text, words[m])
    {
      if Contains(text, words[k]) {
        return true;
      }
      k := k + 1;
    }
    return false;
  }

  // The server's replies are split into lines at '\n'; an empty final line is
  // not a line.

  function Lines(s: string): seq<string>
    decreases |s|
  {
    if s == [] then []
    else match FindChar(s, 0, '\n')
      case None => [s]
      case Some(p) => [s[..p]] + Lines(s[p + 1..])
  }

  /** The line starting at i and the index after it (past its '\n'). */
  function LineAt(s: string, i: nat): (r: (string, nat))
    requires i < |s|
    ensures i < r.1 <= |s|
  {
    match FindChar(s, i, '\n')
    case None => (s[i..], |s|)
    case Some(p) => (s[i..p], p + 1)
  }

  /** Splitting from i is taking the line at i and splitting after it. */
  lemma LinesFrom(s: string, i: nat)
    requires i < |s|
    ensures Lines(s[i..]) == [LineAt(s, i).0] + Lines(s[LineAt(s, i).1..])
  {
    var t := s[i..];
    FindShift(s, i, 0);
    match FindChar(s, i, '\n')
    case None =>
    case Some(p) =>
      assert t[..p - i] == s[i..p];
      assert t[p - i + 1..] == s[p + 1..];
  }

  /** Searching s[i..] from k is searching s from i + k. */
  lemma {:induction false} FindShift(s: string, i: nat, k: nat)
    requires i + k <= |s|
    ensures FindChar(s[i..], k, '\n') == match FindChar(s, i + k, '\n')
      case None => None
      case Some(p) => Some(p - i)
    decreases |s| - i - k
  {
    if i + k < |s| {
      assert s[i..][k] == s[i + k];
      if s[i + k] != '\n' {
        FindShift(s, i, k + 1);
      }
    }
  }

  // info_parse

  datatype Comment = Comment(author: string, text: string)

  /** The fields of save_info that info_parse fills. */
  datatype SaveInfo = SaveInfo(
    title: Option<string>, name: Option<string>, author: Option<string>, date: Option<string>,
    description: Option<string>, tags: Option<string>,
    voteup: int, votedown: int, vote: int, myvote: int, downloadcount: int, myfav: int, publish: int,
    comments: seq<Comment>)

  /** The cleared save_info. */
  const EmptyInfo := SaveInfo(None, None, None, None, None, None, 0, 0, 0, 0, 0, 0, 0, [])

  /** A COMMENT line as the code splits it: the author runs from index 8 to the
      first space, the text is the rest. Without that space the code writes
      through a null pointer (None). */
  function CommentFieldsAsWritten(line: string): Option<Comment>
    requires StartsWith(line, "COMMENT ")
  {
    match FindChar(line, 8, ' ')
    case None => None
    case Some(q) => Some(Comment(line[8..q], Take(line[q + 1..], 1023)))
  }

  /** A COMMENT line whose author is not followed by a space reaches the null
      pointer. */
  lemma CommentWithoutText()
    ensures CommentFieldsAsWritten("COMMENT bob") == None
  {
  }

  /** A COMMENT line with a missing text read as an empty text. */
  function CommentFields(line: string): (c: Comment)
    requires StartsWith(line, "COMMENT ")
    ensures CommentFieldsAsWritten(line).Some? ==> CommentFieldsAsWritten(line).value == c
    ensures FindChar(line, 8, ' ').None? ==> c == Comment(line[8..], "")
  {
    match FindChar(line, 8, ' ')
    case None => Comment(line[8..], "")
    case Some(q) => Comment(line[8..q], Take(line[q + 1..], 1023))
  }

  /** The first n characters, as strncpy(dst, src, n) copies them. */
  function Take(s: string, n: nat): (r: string)
    ensures |r| <= n && |r| <= |s| && r == s[..|r|] && (|s| <= n ==> r == s)
  {
    if |s| <= n then s else s[..n]
  }

  /** The lines info_parse counts as fields, other than comments. */
  predicate IsField(line: string)
  {
    StartsWith(line, "TITLE ") || StartsWith(line, "NAME ") || StartsWith(line, "AUTHOR ") ||
    StartsWith(line, "DATE ") || StartsWith(line, "DESCRIPTION ") || StartsWith(line, "VOTEUP ") ||
    StartsWith(line, "VOTEDOWN ") || StartsWith(line, "VOTE ") || StartsWith(line, "MYVOTE ") ||
    StartsWith(line, "DOWNLOADS ") || StartsWith(line, "MYFAV ") || StartsWith(line, "PUBLISH ") ||
    StartsWith(line, "TAGS ")
  }

  /** One line of info_parse: the recognised keys store their value and count
      as a field; a COMMENT line beyond the first numComments is skipped
      without being counted. */
  function InfoLine(info: SaveInfo, j: int, line: string, numComments: nat): (SaveInfo, int)
  {
    if StartsWith(line, "TITLE ") then (info.(title := Some(line[6..])), j + 1)
    else if StartsWith(line, "NAME ") then (info.(name := Some(line[5..])), j + 1)
    else if StartsWith(line, "AUTHOR ") then (info.(author := Some(line[7..])), j + 1)
    else if StartsWith(line, "DATE ") then (info.(date := Some(line[5..])), j + 1)
    else if StartsWith(line, "DESCRIPTION ") then (info.(description := Some(line[12..])), j + 1)
    else if StartsWith(line, "VOTEUP ") then (info.(voteup := Atoi(line[7..])), j + 1)
    else if StartsWith(line, "VOTEDOWN ") then (info.(votedown := Atoi(line[9..])), j + 1)
    else if StartsWith(line, "VOTE ") then (info.(vote := Atoi(line[5..])), j + 1)
    else if StartsWith(line, "MYVOTE ") then (info.(myvote := Atoi(line[7..])), j + 1)
    else if StartsWith(line, "DOWNLOADS ") then (info.(downloadcount := Atoi(line[10..])), j + 1)
    else if StartsWith(line, "MYFAV ") then (info.(myfav := Atoi(line[6..])), j + 1)
    else if StartsWith(line, "PUBLISH ") then (info.(publish := Atoi(line[8..])), j + 1)
    else if StartsWith(line, "TAGS ") then (info.(tags := Some(line[5..])), j + 1)
    else if StartsWith(line, "COMMENT ") then
      if |info.comments| >= numComments then (info, j)
      else (info.(comments := info.comments + [CommentFields(line)]), j + 1)
    else (info, j)
  }

  function InfoLines(info: SaveInfo, j: int, lines: seq<string>, numComments: nat): (SaveInfo, int)
    decreases |lines|
  {
    if lines == [] then (info, j)
    else
      var (info', j') := InfoLine(info, j, lines[0], numComments);
      InfoLines(info', j', lines[1..], numComments)
  }

  /** Reading one more line is one more step of InfoLines. */
  lemma InfoLinesStep(info: SaveInfo, j: int, data: string, i: nat, numComments: nat)
    requires i < |data|
    ensures var (line, next) := LineAt(data, i);
      InfoLines(info, j, Lines(data[i..]), numComments) ==
      InfoLines(InfoLine(info, j, line, numComments).0, InfoLine(info, j, line, numComments).1,
                Lines(data[next..]), numComments)
  {
    LinesFrom(data, i);
  }

  /** The line loop of info_parse. */
  method ReadInfoLines(data: string, numComments: nat) returns (info: SaveInfo, j: int)
    ensures (info, j) == InfoLines(EmptyInfo, 0, Lines(data), numComments)
  {
    info, j := EmptyInfo, 0;
    var i := 0;
    assert data[0..] == data;
    while i < |data|
      invariant i <= |data|
      invariant InfoLines(info, j, Lines(data[i..]), numComments) == InfoLines(EmptyInfo, 0, Lines(data), numComments)
      decreases |data| - i
    {
      var (line, next) := LineAt(data, i);
      InfoLinesStep(info, j, data, i, numComments);
      info, j := InfoLine(info, j, line, numComments).0, InfoLine(info, j, line, numComments).1;
      i := next;
    }
    assert data[i..] == [];
  }

  /** info_parse: 0 for an empty reply; otherwise 1 when at least 8 fields were
      recognised and -1 when fewer were. */
  method InfoParse(data: string, numComments: nat) returns (r: int, info: SaveInfo)
    ensures var (info', j) := InfoLines(EmptyInfo, 0, Lines(data), numComments);
      info == info' && r == (if data == [] then 0 else if j >= 8 then 1 else -1)
    ensures var lines := Lines(data);
      var kept := Min(numComments, |CommentsOf(lines)|);
      info.comments == CommentsOf(lines)[..kept] &&
      r == (if data == [] then 0 else if FieldLines(lines) + kept >= 8 then 1 else -1)
  {
    InfoLinesCount(EmptyInfo, 0, Lines(data), numComments);
    var j;
    info, j := ReadInfoLines(data, numComments);
    r := if data == [] then 0 else if j >= 8 then 1 else -1;
  }

  /** The comments of the COMMENT lines, in order. */
  function CommentsOf(lines: seq<string>): seq<Comment>
  {
    if lines == [] then []
    else (if StartsWith(lines[0], "COMMENT ") then [CommentFields(lines[0])] else []) + CommentsOf(lines[1..])
  }

  function FieldLines(lines: seq<string>): nat
  {
    if lines == [] then 0 else (if IsField(lines[0]) then 1 else 0) + FieldLines(lines[1..])
  }

  function Min(a: int, b: int): int { if a < b then a else b }

  /** The fields info_parse counts are the field lines and the first
      numComments comment lines, and the comments kept are those first
      comment lines, in order. */
  lemma {:induction false} InfoLinesCount(info: SaveInfo, j: int, lines: seq<string>, numComments: nat)
    requires |info.comments| <= numComments
    ensures var r := InfoLines(info, j, lines, numComments);
      var cs := CommentsOf(lines);
      var kept := Min(numComments - |info.comments|, |cs|);
      r.1 == j + FieldLines(lines) + kept && r.0.comments == info.comments + cs[..kept]
    decreases |lines|
  {
    if lines != [] {
      var line := lines[0];
      var (info1, j1) := InfoLine(info, j, line, numComments);
      InfoLineEffect(info, j, line, numComments);
      InfoLinesCount(info1, j1, lines[1..], numComments);
      assert InfoLines(info, j, lines, numComments) == InfoLines(info1, j1, lines[1..], numComments);
      var cs, cs' := CommentsOf(lines), CommentsOf(lines[1..]);
      var room := numComments - |info.comments|;
      if StartsWith(line, "COMMENT ") && room > 0 {
        assert cs == [CommentFields(line)] + cs';
        CommentsKept(info.comments, CommentFields(line), cs', room);
      } else {
        assert !StartsWith(line, "COMMENT ") ==> cs == cs';
      }
    }
  }

  /** Keeping room comments after c and cs' is keeping c, then room - 1 of cs'. */
  lemma CommentsKept(done: seq<Comment>, c: Comment, cs': seq<Comment>, room: int)
    requires room > 0
    ensures var kept := Min(room, |[c] + cs'|);
      kept == 1 + Min(room - 1, |cs'|) &&
      done + ([c] + cs')[..kept] == (done + [c]) + cs'[..kept - 1]
  {
    var kept := Min(room, |[c] + cs'|);
    assert ([c] + cs')[..kept] == [c] + cs'[..kept - 1];
  }

  /** What one line does to the count and the comments. */
  lemma InfoLineEffect(info: SaveInfo, j: int, line: string, numComments: nat)
    ensures var r := InfoLine(info, j, line, numComments);
      (IsField(line) ==> r.1 == j + 1 && r.0.comments == info.comments) &&
      (StartsWith(line, "COMMENT ") ==>
        if |info.comments| >= numComments then r == (info, j)
        else r.1 == j + 1 && r.0.comments == info.comments + [CommentFields(line)]) &&
      (!IsField(line) && !StartsWith(line, "COMMENT ") ==> r == (info, j))
  {
    if StartsWith(line, "COMMENT ") {
      CommentLineEffect(info, j, line, numComments);
    } else if IsField(line) {
      FieldLineEffect(info, j, line, numComments);
    }
  }

  /** A COMMENT line is not a field line. */
  lemma CommentLineEffect(info: SaveInfo, j: int, line: string, numComments: nat)
    requires StartsWith(line, "COMMENT ")
    ensures !IsField(line)
    ensures var r := InfoLine(info, j, line, numComments);
      if |info.comments| >= numComments then r == (info, j)
      else r.1 == j + 1 && r.0.comments == info.comments + [CommentFields(line)]
  {
    assert line[0] == 'C';
  }

  /** A field line counts once and leaves the comments alone. */
  lemma FieldLineEffect(info: SaveInfo, j: int, line: string, numComments: nat)
    requires IsField(line)
    ensures var r := InfoLine(info, j, line, numComments);
      r.1 == j + 1 && r.0.comments == info.comments
  {
  }

  // search_results

  /** One save of the search grid. */
  datatype SearchEntry = SearchEntry(id: string, date: Option<string>, publish: int, votes: Option<int>,
                                     scoreUp: int, scoreDown: int, owner: string, name: string)

  /** The globals search_results fills: the saves of the grid, the tags, the
      message of the day and whether an OPEN line was seen. */
  datatype SearchState = SearchState(saves: seq<SearchEntry>, tags: seq<(string, int)>, motd: string, doOpen: bool)

  /** What a line does to the loop: go on, break out of it, or return. */
  datatype Outcome = Next(st: SearchState) | Break(st: SearchState) | Return(st: SearchState)

  const GRID_SIZE: nat := GRID_X * GRID_Y

  /** n space-separated fields from k, the last one running to the end of the
      line, as the chain of strchr(…, ' ') calls cuts them; None when a space is
      missing. */
  function Fields(s: string, k: nat, n: nat): (r: Option<seq<string>>)
    requires k <= |s| && n >= 1
    ensures r.Some? ==> |r.value| == n
    decreases n
  {
    if n == 1 then Some([s[k..]])
    else match FindChar(s, k, ' ')
      case None => None
      case Some(p) =>
        match Fields(s, p + 1, n - 1)
        case None => None
        case Some(rest) => Some([s[k..p]] + rest)
  }

  /** The entry of a save line whose fields start at k: id, [date,] publish,
      [votes,] score up, score down, owner, name. */
  function SaveLine(line: string, k: nat, history: bool, votes: bool): Option<SearchEntry>
    requires k <= |line|
  {
    var n := 6 + (if history then 1 else 0) + (if votes then 1 else 0);
    match Fields(line, k, n)
    case None => None
    case Some(f) =>
      var d := if history then 1 else 0;
      var v := if votes then 1 else 0;
      Some(SearchEntry(f[0], if history then Some(f[1]) else None, Atoi(f[1 + d]),
                       if votes then Some(Atoi(f[2 + d])) else None,
                       Atoi(f[2 + d + v]), Atoi(f[3 + d + v]), f[4 + d + v], f[5 + d + v]))
  }

  /** A line of search_results. OPEN, HISTORY and plain lines add a save while
      the grid has room (a full grid breaks the loop, a malformed line returns);
      MOTD sets the message of the day (at most 511 characters); TAG adds a tag
      while there is room and the line is well formed. */
  function SearchLine(st: SearchState, line: string, votes: bool): Outcome
  {
    if StartsWith(line, "OPEN ") || StartsWith(line, "HISTORY ") ||
       !(StartsWith(line, "MOTD ") || StartsWith(line, "TAG ")) then
      var st := if StartsWith(line, "OPEN ") then st.(doOpen := true) else st;
      if |st.saves| >= GRID_SIZE then Break(st)
      else
        var k := if StartsWith(line, "OPEN ") then 5 else if StartsWith(line, "HISTORY ") then 8 else 0;
        match SaveLine(line, k, StartsWith(line, "HISTORY "), votes)
        case None => Return(st)
        case Some(e) => Next(st.(saves := st.saves + [e]))
    else if StartsWith(line, "MOTD ") then Next(st.(motd := Take(line[5..], 511)))
    else if |st.tags| >= TAG_MAX then Next(st)
    else match FindChar(line, 4, ' ')
      case None => Next(st)
      case Some(q) => Next(st.(tags := st.tags + [(line[4..q], Atoi(line[q + 1..]))]))
  }

  /** The loop over the lines and the count search_results returns: the number
      of saves, plus one when the loop broke on a non-empty line (there are
      more results than the grid holds). */
  function SearchLines(st: SearchState, lines: seq<string>, votes: bool): (int, SearchState)
    decreases |lines|
  {
    if lines == [] then (|st.saves|, st)
    else match SearchLine(st, lines[0], votes)
      case Next(st') => SearchLines(st', lines[1..], votes)
      case Break(st') => (|st'.saves| + (if lines[0] != [] then 1 else 0), st')
      case Return(st') => (|st'.saves|, st')
  }

  const NoResults := SearchState([], [], [], false)

  /** search_results: 0 for an empty reply, otherwise the result of the loop
      over its lines. */
  method SearchResults(str: string, votes: bool) returns (count: int, st: SearchState)
    ensures (count, st) == if str == [] then (0, NoResults) else SearchLines(NoResults, Lines(str), votes)
  {
    st := NoResults;
    if str == [] {
      return 0, st;
    }
    var i := 0;
    while i < |str|
      invariant i <= |str|
      invariant SearchLines(st, Lines(str[i..]), votes) == SearchLines(NoResults, Lines(str), votes)
      decreases |str| - i
    {
      var (line, next) := LineAt(str, i);
      LinesFrom(str, i);
      var out := SearchLine(st, line, votes);
      if out.Break? {
        return |out.st.saves| + (if line != [] then 1 else 0), out.st;
      } else if out.Return? {
        return |out.st.saves|, out.st;
      }
      st := out.st;
      i := next;
    }
    assert str[i..] == [];
    count := |st.saves|;
  }

  /** The grid never holds more than GRID_X*GRID_Y saves, nor the tag list
      more than TAG_MAX tags; the count is the number of saves, or one more
      when the grid is full and more results follow. */
  lemma {:induction false} SearchBounded(st: SearchState, lines: seq<string>, votes: bool)
    requires |st.saves| <= GRID_SIZE && |st.tags| <= TAG_MAX
    ensures var (n, st') := SearchLines(st, lines, votes);
      |st'.saves| <= GRID_SIZE && |st'.tags| <= TAG_MAX &&
      |st.saves| <= |st'.saves| &&
      (n == |st'.saves| || (n == |st'.saves| + 1 && |st'.saves| == GRID_SIZE))
    decreases |lines|
  {
    if lines != [] {
      match SearchLine(st, lines[0], votes)
      case Next(st') => SearchBounded(st', lines[1..], votes);
      case Break(st') =>
      case Return(st') =>
    }
  }

  // console_limit_history

  /** A command_history node: a command of the console and the one before it. */
  class CommandNode {
    var command: string
    var prev: CommandNode?

    constructor (command: string, prev: CommandNode?)
      ensures this.command == command && this.prev == prev
    {
      this.command := command;
      this.prev := prev;
    }
  }

  /** nodes are the distinct nodes reached from list through prev, newest first. */
  ghost predicate IsChain(list: CommandNode?, nodes: seq<CommandNode>)
    reads set n | n in nodes
  {
    (list == null <==> nodes == []) &&
    (nodes != [] ==> nodes[0] == list && nodes[|nodes| - 1].prev == null) &&
    (forall i :: 0 <= i < |nodes| - 1 ==> nodes[i].prev == nodes[i + 1]) &&
    (forall i, j :: 0 <= i < j < |nodes| ==> nodes[i] != nodes[j])
  }

  /** console_limit_history: walking to the oldest node first, it cuts the list
      after the limit-th node, so that at most limit commands stay reachable.
      No other link changes. */
  method LimitHistory(limit: int, list: CommandNode?, ghost nodes: seq<CommandNode>)
    requires IsChain(list, nodes)
    modifies set n | n in nodes
    ensures forall i :: 0 <= i < |nodes| ==>
      nodes[i].prev == (if i == limit - 1 then null else old(nodes[i].prev)) &&
      nodes[i].command == old(nodes[i].command)
    ensures limit >= 1 ==> IsChain(list, nodes[..Min(limit, |nodes|)])
    decreases |nodes|
  {
    if list == null {
      return;
    }
    assert |nodes| > 1 ==> list.prev == nodes[1];
    assert forall i :: 0 <= i < |nodes| - 2 ==> nodes[1..][i] == nodes[i + 1];
    LimitHistory(limit - 1, list.prev, nodes[1..]);
    if limit <= 0 {
      // the node is freed; the model keeps it
    } else if limit == 1 {
      list.prev := null;
    }
  }
}
