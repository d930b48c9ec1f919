/** `parse_player_webpage`: a player's page becomes one record holding the
    name, accolades, nicknames, height, weight, position, the teams played
    for, the per-game statistics of each season and the career line. Each
    field follows its own extraction rule; a rule that meets markup it does
    not expect raises, and the exception ends the whole crawl. */
module PlayerParser {
  import opened Wrappers
  import opened Text
  import opened Seqs
  import opened Dom

  /** The first `h1` of the page, with the first `span` inside it if any. */
  datatype Heading = Heading(span: Option<Element>)

  /** A child node of an element: a text node, or an element. */
  datatype Child = TextNode(text: string) | ElementNode

  /** A `strong` element: its `.string` (absent when it has several children)
      and the `.contents` of its parent. */
  datatype Strong = Strong(str: Option<string>, parentContents: seq<Child>)

  /** What the parser selects from a player's page. */
  datatype PlayerPage = PlayerPage(
    heading: Option<Heading>,       // soup.find('h1')
    bling: seq<Element>,            // '#bling li'
    paragraphs: seq<Option<string>>, // the `.string` of every `p`, in document order
    metaSpans: seq<Element>,        // 'div#meta p span'
    strongs: seq<Strong>,           // every `strong`, in document order
    totals: Option<Table>,          // table#totals
    perGame: Option<Table>)         // table#per_game_stats

  datatype TeamYears = TeamYears(team: string, years: string)

  /** The detail artifact's element. */
  datatype PlayerRecord = PlayerRecord(
    name: string,
    accolades: seq<string>,
    nicknames: seq<string>,
    height: Option<string>,
    weight: Option<string>,
    position: Option<string>,
    teams: seq<TeamYears>,
    seasonStats: seq<map<string, string>>,
    careerStats: map<string, string>)

  /** The player's name: the text of the first `span` in the first `h1`;
      without either, the page raises. */
  function PlayerName(heading: Option<Heading>): (r: Result<string, Crash>)
    ensures r.Success? <==> heading.Some? && heading.value.span.Some?
    ensures r.Failure? ==> r.error == MissingNameHeading
    ensures r.Success? ==> r.value == GetText(heading.value.span.value, "")
    ensures r.Success? ==> Stripped(r.value)
  {
    match heading
    case None => Failure(MissingNameHeading)
    case Some(h) =>
      match h.span
      case None => Failure(MissingNameHeading)
      case Some(span) => Success(GetText(span, ""))
  }

  /** A heading whose span holds a stripped name as its one text node gives that name. */
  lemma PlayerNameOfSpan(name: string)
    requires name != [] && Stripped(name)
    ensures PlayerName(Some(Heading(Some(Element([name]))))) == Success(name)
  {
    GetTextSingle(name, "");
  }

  // ---------------------------------------------------------------- nicknames

  /** A paragraph whose single string contains an opening parenthesis. */
  predicate NicknameParagraph(p: Option<string>) {
    p.Some? && Contains(p.value, "(")
  }

  /** `text[text.find('(') + 1 : text.find(')')]`, with Python's slicing: a
      missing `)` makes the end index -1, which counts from the end. */
  function Parenthesised(text: string): (r: string)
    ensures |r| <= |text|
    ensures 0 <= Find(text, "(") < Find(text, ")") ==> r == text[Find(text, "(") + 1..Find(text, ")")]
    ensures 0 <= Find(text, ")") <= Find(text, "(") ==> r == []
    ensures 0 <= Find(text, "(") && Find(text, ")") < 0 ==>
      r == if Find(text, "(") + 1 < |text| - 1 then text[Find(text, "(") + 1..|text| - 1] else []
  {
    Slice(text, Find(text, "(") + 1, Find(text, ")"))
  }

  /** Each string stripped, none dropped. */
  function StripEach(xs: seq<string>): (r: seq<string>)
    ensures |r| == |xs|
    ensures forall k :: 0 <= k < |r| ==> r[k] == Strip(xs[k]) && Stripped(r[k])
  {
    if xs == [] then [] else [Strip(xs[0])] + StripEach(xs[1..])
  }

  /** The nicknames: from the first paragraph whose string holds a `(`, the
      text between the first `(` and the first `)`, split at ", ", each piece
      stripped. No such paragraph gives no nicknames; otherwise there is at
      least one, possibly empty. */
  function Nicknames(paragraphs: seq<Option<string>>): (r: seq<string>)
    ensures r == [] <==> FirstWhere(paragraphs, NicknameParagraph).None?
    ensures FirstWhere(paragraphs, NicknameParagraph).Some? ==>
      r == StripEach(Split(Parenthesised(Strip(paragraphs[FirstWhere(paragraphs, NicknameParagraph).value].value)), ", "))
    ensures forall k :: 0 <= k < |r| ==> Stripped(r[k])
  {
    match FirstWhere(paragraphs, NicknameParagraph)
    case None => []
    case Some(i) =>
      var text := Strip(paragraphs[i].value);
      StripEach(Split(Parenthesised(text), ", "))
  }

  /** Between a first `(` and the first `)` after it lies the nickname text. */
  lemma ParenthesisedClosed(a: string, b: string, c: string)
    requires '(' !in a && ')' !in a && ')' !in b
    ensures Parenthesised(a + "(" + b + ")" + c) == b
  {
    var text := a + "(" + b + ")" + c;
    assert text == a + ['('] + (b + ")" + c);
    FindCharAfter(a, '(', b + ")" + c);
    assert text == (a + "(" + b) + [')'] + c;
    FindCharAfter(a + "(" + b, ')', c);
    assert text[|a| + 1..|a| + 1 + |b|] == b;
  }

  /** Without any `)`, the slice runs to the end index -1 and so loses the
      text's last character: "Earvin (Magic" gives "Magi". */
  lemma ParenthesisedUnclosed(a: string, b: string)
    requires '(' !in a && ')' !in a && ')' !in b
    ensures Parenthesised(a + "(" + b) == if b == [] then [] else b[..|b| - 1]
  {
    var text := a + "(" + b;
    assert text == a + ['('] + b;
    FindCharAfter(a, '(', b);
    MissingCharNotContained(text, ")", ')');
    if b != [] {
      assert text[|a| + 1..|text| - 1] == b[..|b| - 1];
    }
  }

  /** A `)` before the first `(` leaves nothing between them. */
  lemma ParenthesisedReversed(a: string, b: string, c: string)
    requires ')' !in a && '(' !in a && '(' !in b
    ensures Parenthesised(a + ")" + b + "(" + c) == []
  {
    var text := a + ")" + b + "(" + c;
    assert text == a + [')'] + (b + "(" + c);
    FindCharAfter(a, ')', b + "(" + c);
    assert text == (a + ")" + b) + ['('] + c;
    FindCharAfter(a + ")" + b, '(', c);
  }

  /** Stripping strings that are already stripped changes none of them. */
  lemma StripEachStripped(xs: seq<string>)
    requires forall k :: 0 <= k < |xs| ==> Stripped(xs[k])
    ensures StripEach(xs) == xs
  {
    forall k | 0 <= k < |xs| ensures StripEach(xs)[k] == xs[k] {
      StripStripped(xs[k]);
    }
  }

  /** Names free of `)` joined inside parentheses are what the slice takes out. */
  lemma ParenthesisedJoin(a: string, names: seq<string>, c: string)
    requires '(' !in a && ')' !in a
    requires forall k :: 0 <= k < |names| ==> ')' !in names[k]
    ensures Parenthesised(a + "(" + Join(names, ", ") + ")" + c) == Join(names, ", ")
  {
    JoinKeepsOut(names, ", ", ')');
    ParenthesisedClosed(a, Join(names, ", "), c);
  }

  /** Stripped names without ", " come back from joining, splitting and stripping. */
  lemma StripSplitJoin(names: seq<string>)
    requires names != []
    requires forall k :: 0 <= k < |names| ==> Stripped(names[k]) && !Contains(names[k], ", ")
    ensures StripEach(Split(Join(names, ", "), ", ")) == names
  {
    SplitJoinCommaSpace(names);
    StripEachStripped(names);
  }

  /** The first paragraph with a `(`, already stripped, is split as it stands. */
  lemma NicknamesOfStripped(paragraphs: seq<Option<string>>, i: nat, a: string, b: string, c: string)
    requires i < |paragraphs| && paragraphs[i] == Some(a + "(" + b + ")" + c)
    requires forall j :: 0 <= j < i ==> !NicknameParagraph(paragraphs[j])
    requires Stripped(a + "(" + b + ")" + c)
    ensures Nicknames(paragraphs) == StripEach(Split(Parenthesised(a + "(" + b + ")" + c), ", "))
  {
    var p := a + "(" + b + ")" + c;
    assert NicknameParagraph(paragraphs[i]) by {
      assert p[|a|] == '(';
      ContainsChar(p, '(');
    }
    FirstWhereIs(paragraphs, NicknameParagraph, i);
    StripStripped(p);
  }

  /** Round trip: where the first paragraph with a `(` reads
      `a + "(" + names joined with ", " + ")" + c`, the nicknames are exactly
      `names`, provided `a` holds no parenthesis and each name is stripped and
      holds neither `)` nor ", ". Empty parentheses give one empty nickname. */
  lemma NicknamesOfNames(paragraphs: seq<Option<string>>, i: nat, a: string, names: seq<string>, c: string)
    requires i < |paragraphs| && paragraphs[i] == Some(a + "(" + Join(names, ", ") + ")" + c)
    requires forall j :: 0 <= j < i ==> !NicknameParagraph(paragraphs[j])
    requires Stripped(a + "(" + Join(names, ", ") + ")" + c)
    requires '(' !in a && ')' !in a
    requires names != []
    requires forall k :: 0 <= k < |names| ==> Stripped(names[k]) && ')' !in names[k] && !Contains(names[k], ", ")
    ensures Nicknames(paragraphs) == names
  {
    var b := Join(names, ", ");
    NicknamesOfStripped(paragraphs, i, a, b, c);
    ParenthesisedJoin(a, names, c);
    StripSplitJoin(names);
  }

  /** The parenthesis that selected the paragraph survives `strip()`. */
  lemma NicknameTextHasParenthesis(p: string)
    requires Contains(p, "(")
    ensures Contains(Strip(p), "(")
  {
    ContainsChar(p, '(');
    StripKeepsNonSpace(p, '(');
    ContainsChar(Strip(p), '(');
  }

  // ---------------------------------------------------------- height, weight

  /** A span text read as a height: it contains a hyphen. */
  predicate HeightText(t: string) {
    Contains(t, "-")
  }

  /** A span text read as a weight: no hyphen (that takes precedence), and "lb". */
  predicate WeightText(t: string) {
    !Contains(t, "-") && Contains(t, "lb")
  }

  /** The last text satisfying `p`, if any: where each match overwrites the
      previous one, the one left at the end. */
  function LastText(texts: seq<string>, p: string -> bool): (r: Option<string>)
    ensures r.None? <==> forall k :: 0 <= k < |texts| ==> !p(texts[k])
    ensures r.Some? ==> p(r.value) && r.value in texts
  {
    match LastWhere(texts, p)
    case None => None
    case Some(k) => Some(texts[k])
  }

  /** The text kept is the last one satisfying `p`. */
  lemma LastTextIsLast(texts: seq<string>, p: string -> bool, k: nat)
    requires k < |texts| && p(texts[k])
    requires forall j :: k < j < |texts| ==> !p(texts[j])
    ensures LastText(texts, p) == Some(texts[k])
  {
    LastWhereIs(texts, p, k);
  }

  /** One more text replaces the kept one exactly when it satisfies `p`. */
  lemma LastTextSnoc(texts: seq<string>, t: string, p: string -> bool)
    ensures LastText(texts + [t], p) == if p(t) then Some(t) else LastText(texts, p)
  {
    assert (texts + [t])[..|texts|] == texts;
  }

  /** Reading one more text of a sequence. */
  lemma LastTextStep(texts: seq<string>, k: nat, p: string -> bool)
    requires k < |texts|
    ensures LastText(texts[..k + 1], p) == if p(texts[k]) then Some(texts[k]) else LastText(texts[..k], p)
  {
    TakeOneMore(texts, k);
    LastTextSnoc(texts[..k], texts[k], p);
  }

  /** Scans the meta spans in order: a text with "-" becomes the height,
      else a text with "lb" becomes the weight; a later match replaces an
      earlier one and other texts change nothing. */
  method Measurements(spans: seq<Element>) returns (height: Option<string>, weight: Option<string>)
    ensures height == LastText(Texts(spans), HeightText)
    ensures weight == LastText(Texts(spans), WeightText)
  {
    height, weight := None, None;
    ghost var texts := Texts(spans);
    for k := 0 to |spans|
      invariant height == LastText(texts[..k], HeightText)
      invariant weight == LastText(texts[..k], WeightText)
    {
      var text := GetText(spans[k], "");
      LastTextStep(texts, k, HeightText);
      LastTextStep(texts, k, WeightText);
      if HeightText(text) {
        height := Some(text);
      } else if WeightText(text) {
        weight := Some(text);
      }
    }
    TakeAll(texts);
  }

  // ----------------------------------------------------------------- position

  /** The bullet the position filter drops, as the source spells it: the
      three characters U+00E2 U+2013 U+00AA. */
  const Bullet: string := "\U{E2}\U{2013}\U{AA}"

  /** A `strong` whose string contains "Position:". */
  predicate PositionLabel(s: Strong) {
    s.str.Some? && Contains(s.str.value, "Position:")
  }

  /** A line that is neither blank nor the bullet once stripped. */
  predicate PositionLine(line: string) {
    Strip(line) != [] && Strip(line) != Bullet
  }

  /** The position: absent without a "Position:" label; otherwise the first
      qualifying line of the label's parent's third child, stripped. A parent
      with fewer than three children, a third child that is an element, or
      no qualifying line raises. */
  function Position(strongs: seq<Strong>): (r: Result<Option<string>, Crash>)
    ensures r == Success(None) <==> FirstWhere(strongs, PositionLabel).None?
    ensures r.Success? && r.value.Some? ==> r.value.value != [] && r.value.value != Bullet && Stripped(r.value.value)
    ensures r.Failure? ==> r.error in {PositionChildMissing, PositionChildNotText, NoPositionLine}
    ensures FirstWhere(strongs, PositionLabel).Some? ==>
      var siblings := strongs[FirstWhere(strongs, PositionLabel).value].parentContents;
      && (|siblings| < 3 ==> r == Failure(PositionChildMissing))
      && (|siblings| >= 3 && siblings[2].ElementNode? ==> r == Failure(PositionChildNotText))
  {
    match FirstWhere(strongs, PositionLabel)
    case None => Success(None)
    case Some(i) =>
      var siblings := strongs[i].parentContents;
      if |siblings| < 3 then Failure(PositionChildMissing)
      else
        match siblings[2]
        case ElementNode => Failure(PositionChildNotText)
        case TextNode(t) =>
          var lines := SplitLines(Strip(t));
          match FirstWhere(lines, PositionLine)
          case None => Failure(NoPositionLine)
          case Some(k) => Success(Some(Strip(lines[k])))
  }

  /** The position is the first line that is neither blank nor the bullet,
      stripped: every line before it is one of those. */
  lemma PositionIsFirstLine(strongs: seq<Strong>, i: nat, t: string, k: nat)
    requires FirstWhere(strongs, PositionLabel) == Some(i)
    requires |strongs[i].parentContents| >= 3 && strongs[i].parentContents[2] == TextNode(t)
    requires k < |SplitLines(Strip(t))| && PositionLine(SplitLines(Strip(t))[k])
    requires forall j :: 0 <= j < k ==> !PositionLine(SplitLines(Strip(t))[j])
    ensures Position(strongs) == Success(Some(Strip(SplitLines(Strip(t))[k])))
  {
    FirstWhereIs(SplitLines(Strip(t)), PositionLine, k);
  }

  /** A position text with no line other than blanks and bullets raises. */
  lemma PositionWithoutLineRaises(strongs: seq<Strong>, i: nat, t: string)
    requires FirstWhere(strongs, PositionLabel) == Some(i)
    requires |strongs[i].parentContents| >= 3 && strongs[i].parentContents[2] == TextNode(t)
    requires forall j :: 0 <= j < |SplitLines(Strip(t))| ==> !PositionLine(SplitLines(Strip(t))[j])
    ensures Position(strongs) == Failure(NoPositionLine)
  {
  }

  // -------------------------------------------------------------------- teams

  /** One row of the totals table: its `team_id` cell and its `season`
      header; a row without either raises. */
  function TeamOf(row: Row): (r: Result<TeamYears, Crash>)
    ensures r.Success? <==> FindCell(row, Td, "team_id").Some? && FindCell(row, Th, "season").Some?
    ensures r.Success? ==> r.value.team == GetText(FindCell(row, Td, "team_id").value.content, "")
    ensures r.Success? ==> r.value.years == GetText(FindCell(row, Th, "season").value.content, "")
  {
    match FindCell(row, Td, "team_id")
    case None => Failure(MissingTeamCell)
    case Some(team) =>
      match FindCell(row, Th, "season")
      case None => Failure(MissingSeasonCell)
      case Some(season) => Success(TeamYears(GetText(team.content, ""), GetText(season.content, "")))
  }

  /** The teams: none without a totals table, else one per body row, in order. */
  function Teams(totals: Option<Table>): (r: Result<seq<TeamYears>, Crash>)
    ensures totals.None? ==> r == Success([])
    ensures totals.Some? && r.Success? ==> |r.value| == |totals.value.bodyRows|
    ensures totals.Some? && r.Success? ==>
      forall k :: 0 <= k < |r.value| ==> TeamOf(totals.value.bodyRows[k]) == Success(r.value[k])
    ensures r.Failure? ==> totals.Some?
    ensures r.Failure? ==>
      exists k :: 0 <= k < |totals.value.bodyRows| && TeamOf(totals.value.bodyRows[k]) == Failure(r.error) && SucceedsBefore(totals.value.bodyRows, TeamOf, k)
  {
    match totals
    case None => Success([])
    case Some(table) => MapResult(table.bodyRows, TeamOf)
  }

  /** Appends one team entry per totals body row, in order. */
  method CollectTeams(totals: Option<Table>) returns (r: Result<seq<TeamYears>, Crash>)
    ensures r == Teams(totals)
  {
    var teams: seq<TeamYears> := [];
    if totals.Some? {
      var rows := totals.value.bodyRows;
      for k := 0 to |rows|
        invariant MapResult(rows[..k], TeamOf) == Success(teams)
      {
        MapResultStep(rows, k, TeamOf);
        var entry := TeamOf(rows[k]);
        if entry.Failure? {
          MapResultFailurePersists(rows, k + 1, TeamOf);
          return Failure(entry.error);
        }
        teams := teams + [entry.value];
      }
      assert rows[..|rows|] == rows;
    }
    r := Success(teams);
  }

  // --------------------------------------------------------------- statistics

  /** `{c['data-stat']: c.get_text(strip=True) for c in row.find_all('td')}`:
      every `td` keyed by its `data-stat`, a later cell replacing an earlier
      one with the same key; a `td` without `data-stat` raises. */
  function StatMap(cells: seq<Cell>): (r: Result<map<string, string>, Crash>)
    ensures r.Success? <==> forall k :: 0 <= k < |cells| && cells[k].kind == Td ==> cells[k].dataStat.Some?
    ensures r.Failure? ==> r.error == MissingStatKey
    ensures r.Success? ==> forall key :: key in r.value <==> exists k :: 0 <= k < |cells| && HasStat(cells[k], Td, key)
  {
    if cells == [] then Success(map[])
    else
      var init := cells[..|cells| - 1];
      assert forall k :: 0 <= k < |init| ==> init[k] == cells[k];
      var before :- StatMap(init);
      var c := cells[|cells| - 1];
      if c.kind == Th then Success(before)
      else
        match c.dataStat
        case None =>
          assert cells[|cells| - 1].kind == Td && cells[|cells| - 1].dataStat.None?;
          Failure(MissingStatKey)
        case Some(key) =>
          assert HasStat(cells[|cells| - 1], Td, key);
          Success(before[key := GetText(c.content, "")])
  }

  /** A key's value is the text of the last `td` carrying that key. */
  lemma {:induction false} StatMapLastWins(cells: seq<Cell>, k: nat)
    requires StatMap(cells).Success?
    requires k < |cells| && cells[k].kind == Td
    requires forall j :: k < j < |cells| ==> !(cells[j].kind == Td && cells[j].dataStat == cells[k].dataStat)
    ensures cells[k].dataStat.Some?
    ensures StatMap(cells).value[cells[k].dataStat.value] == GetText(cells[k].content, "")
  {
    var init := cells[..|cells| - 1];
    if k < |cells| - 1 {
      assert forall j :: 0 <= j < |init| ==> init[j] == cells[j];
      StatMapLastWins(init, k);
    }
  }

  /** One per-game row: its statistics keyed by `data-stat`, with "season"
      set to the text of its `year_id` header, overriding any cell of that
      key; a row without that header raises. */
  function SeasonRow(row: Row): (r: Result<map<string, string>, Crash>)
    ensures r.Success? <==> StatMap(row.cells).Success? && FindCell(row, Th, "year_id").Some?
    ensures r.Success? ==> "season" in r.value
    ensures r.Success? ==> r.value["season"] == GetText(FindCell(row, Th, "year_id").value.content, "")
    ensures r.Success? ==> r.value.Keys == StatMap(row.cells).value.Keys + {"season"}
    ensures r.Success? ==> forall key :: key in r.value && key != "season" ==> r.value[key] == StatMap(row.cells).value[key]
  {
    var stats :- StatMap(row.cells);
    match FindCell(row, Th, "year_id")
    case None => Failure(MissingYearCell)
    case Some(year) => Success(stats["season" := GetText(year.content, "")])
  }

  /** The season statistics: none without a per-game table, else one map per body row, in order. */
  function SeasonStats(perGame: Option<Table>): (r: Result<seq<map<string, string>>, Crash>)
    ensures perGame.None? ==> r == Success([])
    ensures perGame.Some? && r.Success? ==> |r.value| == |perGame.value.bodyRows|
    ensures perGame.Some? && r.Success? ==>
      forall k :: 0 <= k < |r.value| ==> SeasonRow(perGame.value.bodyRows[k]) == Success(r.value[k])
    ensures perGame.Some? ==> (r.Success? <==> forall k :: 0 <= k < |perGame.value.bodyRows| ==> SeasonRow(perGame.value.bodyRows[k]).Success?)
    ensures r.Success? ==> forall k :: 0 <= k < |r.value| ==> "season" in r.value[k]
    ensures r.Failure? ==> perGame.Some?
    ensures r.Failure? ==>
      exists k :: 0 <= k < |perGame.value.bodyRows| && SeasonRow(perGame.value.bodyRows[k]) == Failure(r.error) && SucceedsBefore(perGame.value.bodyRows, SeasonRow, k)
  {
    match perGame
    case None => Success([])
    case Some(table) => MapResult(table.bodyRows, SeasonRow)
  }

  /** Appends one statistics map per per-game body row, in order. */
  method CollectSeasonStats(perGame: Option<Table>) returns (r: Result<seq<map<string, string>>, Crash>)
    ensures r == SeasonStats(perGame)
  {
    var seasons: seq<map<string, string>> := [];
    if perGame.Some? {
      var rows := perGame.value.bodyRows;
      for k := 0 to |rows|
        invariant MapResult(rows[..k], SeasonRow) == Success(seasons)
      {
        MapResultStep(rows, k, SeasonRow);
        var season := SeasonRow(rows[k]);
        if season.Failure? {
          MapResultFailurePersists(rows, k + 1, SeasonRow);
          return Failure(season.error);
        }
        seasons := seasons + [season.value];
      }
      assert rows[..|rows|] == rows;
    }
    r := Success(seasons);
  }

  /** The career line: the first footer row's statistics, or none without a
      footer row. Without a per-game table at all it raises, as the footer is
      looked up on the missing table. */
  function CareerStats(perGame: Option<Table>): (r: Result<map<string, string>, Crash>)
    ensures perGame.None? <==> r == Failure(MissingPerGameTable)
    ensures perGame.Some? && perGame.value.footRows == [] ==> r == Success(map[])
    ensures perGame.Some? && perGame.value.footRows != [] ==> r == StatMap(perGame.value.footRows[0].cells)
  {
    match perGame
    case None => Failure(MissingPerGameTable)
    case Some(table) =>
      if table.footRows == [] then Success(map[]) else StatMap(table.footRows[0].cells)
  }

  // ------------------------------------------------------------------- record

  /** The record of a page, field by field in the order the source fills
      them; the first rule that raises decides the exception. */
  function ParsePage(page: PlayerPage): (r: Result<PlayerRecord, Crash>)
    ensures r.Success? ==> page.perGame.Some?
  {
    var name :- PlayerName(page.heading);
    var texts := Texts(page.metaSpans);
    var position :- Position(page.strongs);
    var teams :- Teams(page.totals);
    var seasons :- SeasonStats(page.perGame);
    var career :- CareerStats(page.perGame);
    Success(PlayerRecord(
      name,
      Texts(page.bling),
      Nicknames(page.paragraphs),
      LastText(texts, HeightText),
      LastText(texts, WeightText),
      position,
      teams,
      seasons,
      career))
  }

  /** A page parses exactly when none of the rules that can raise does. */
  lemma ParsePageSucceeds(page: PlayerPage)
    ensures ParsePage(page).Success? <==>
      && PlayerName(page.heading).Success?
      && Position(page.strongs).Success?
      && Teams(page.totals).Success?
      && SeasonStats(page.perGame).Success?
      && CareerStats(page.perGame).Success?
  {
  }

  /** A page that does not parse raises the exception of the first rule that
      raises, in the order name, position, teams, seasons, career. */
  lemma ParsePageRaises(page: PlayerPage)
    ensures PlayerName(page.heading).Failure? ==>
      ParsePage(page) == Failure(PlayerName(page.heading).error)
    ensures PlayerName(page.heading).Success? && Position(page.strongs).Failure? ==>
      ParsePage(page) == Failure(Position(page.strongs).error)
    ensures PlayerName(page.heading).Success? && Position(page.strongs).Success? && Teams(page.totals).Failure? ==>
      ParsePage(page) == Failure(Teams(page.totals).error)
    ensures (PlayerName(page.heading).Success? && Position(page.strongs).Success? && Teams(page.totals).Success?
             && SeasonStats(page.perGame).Failure?) ==>
      ParsePage(page) == Failure(SeasonStats(page.perGame).error)
    ensures (PlayerName(page.heading).Success? && Position(page.strongs).Success? && Teams(page.totals).Success?
             && SeasonStats(page.perGame).Success? && CareerStats(page.perGame).Failure?) ==>
      ParsePage(page) == Failure(CareerStats(page.perGame).error)
  {
  }

  /** The shape of a parsed record: one accolade per bling item, nicknames
      exactly when a paragraph holds a `(`, a position exactly when a
      "Position:" label exists, one team per totals row, one season per
      per-game row, each with its "season" key, and an empty career line
      without a footer. */
  lemma ParsePageFields(page: PlayerPage)
    requires ParsePage(page).Success?
    ensures page.perGame.Some?
    ensures var r := ParsePage(page).value;
      && |r.accolades| == |page.bling|
      && (r.nicknames == [] <==> FirstWhere(page.paragraphs, NicknameParagraph).None?)
      && (r.position.Some? <==> FirstWhere(page.strongs, PositionLabel).Some?)
      && |r.teams| == (if page.totals.None? then 0 else |page.totals.value.bodyRows|)
      && |r.seasonStats| == |page.perGame.value.bodyRows|
      && (forall k :: 0 <= k < |r.seasonStats| ==> "season" in r.seasonStats[k])
      && (page.perGame.value.footRows == [] ==> r.careerStats == map[])
    ensures ParsePage(page).value == PlayerRecord(
      PlayerName(page.heading).value,
      Texts(page.bling),
      Nicknames(page.paragraphs),
      LastText(Texts(page.metaSpans), HeightText),
      LastText(Texts(page.metaSpans), WeightText),
      Position(page.strongs).value,
      Teams(page.totals).value,
      SeasonStats(page.perGame).value,
      CareerStats(page.perGame).value)
  {
    ParsePageSucceeds(page);
    var texts := Texts(page.metaSpans);
    var r := ParsePage(page).value;
    assert r == PlayerRecord(
      PlayerName(page.heading).value,
      Texts(page.bling),
      Nicknames(page.paragraphs),
      LastText(texts, HeightText),
      LastText(texts, WeightText),
      Position(page.strongs).value,
      Teams(page.totals).value,
      SeasonStats(page.perGame).value,
      CareerStats(page.perGame).value);
  }

  /** A page whose earlier fields parse but that has no per-game table raises
      when its career line is read, instead of giving empty statistics. */
  lemma MissingPerGameTableRaises(page: PlayerPage)
    requires PlayerName(page.heading).Success?
    requires Position(page.strongs).Success?
    requires Teams(page.totals).Success?
    requires page.perGame.None?
    ensures ParsePage(page) == Failure(MissingPerGameTable)
  {
  }

  /** `parse_player_webpage`: fills the record key by key, running the
      height/weight scan and the two table loops. */
  method ParsePlayerPage(page: PlayerPage) returns (r: Result<PlayerRecord, Crash>)
    ensures r == ParsePage(page)
  {
    var name :- PlayerName(page.heading);
    var accolades := Texts(page.bling);
    var nicknames := Nicknames(page.paragraphs);
    var height, weight := Measurements(page.metaSpans);
    var position :- Position(page.strongs);
    var teams :- CollectTeams(page.totals);
    var seasons :- CollectSeasonStats(page.perGame);
    var career :- CareerStats(page.perGame);
    r := Success(PlayerRecord(name, accolades, nicknames, height, weight, position, teams, seasons, career));
  }
}
