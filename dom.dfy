/** The parsed HTML as the scraper sees it through BeautifulSoup, reduced to
    plain values: an element is the text nodes beneath it, a table cell
    carries its tag and its `data-stat` attribute, a table its body and
    footer rows. Also the HTTP response and the exceptions the code can
    raise, which end a crawl. */
module Dom {
  import opened Wrappers
  import opened Text
  import opened Seqs

  /** An element, seen as the text nodes beneath it in document order. */
  datatype Element = Element(strings: seq<string>)

  /** The strings `[x.strip() for x in xs if x.strip()]`: each stripped, blank ones dropped. */
  function StrippedPieces(xs: seq<string>): (r: seq<string>)
    ensures |r| <= |xs|
    ensures forall k :: 0 <= k < |r| ==> r[k] != [] && Stripped(r[k])
  {
    if xs == [] then []
    else
      var t := Strip(xs[0]);
      if t == [] then StrippedPieces(xs[1..]) else [t] + StrippedPieces(xs[1..])
  }

  /** Nothing is kept exactly when every string is blank. */
  lemma {:induction false} StrippedPiecesEmpty(xs: seq<string>)
    ensures StrippedPieces(xs) == [] <==> forall k :: 0 <= k < |xs| ==> Blank(xs[k])
  {
    if xs != [] {
      StrippedPiecesEmpty(xs[1..]);
      assert forall k :: 1 <= k < |xs| ==> xs[1..][k - 1] == xs[k];
    }
  }

  /** A text node that `strip()` empties. */
  predicate Blank(s: string) {
    Strip(s) == []
  }

  /** One string is kept, stripped, exactly when it is not blank. */
  lemma StrippedPiecesSingle(x: string)
    ensures StrippedPieces([x]) == if Blank(x) then [] else [Strip(x)]
  {
  }

  /** The strings kept from two runs of text nodes are those kept from the
      first followed by those kept from the second. With
      `StrippedPiecesSingle` this fixes the value for every input. */
  lemma {:induction false} StrippedPiecesAppend(xs: seq<string>, ys: seq<string>)
    ensures StrippedPieces(xs + ys) == StrippedPieces(xs) + StrippedPieces(ys)
  {
    if xs == [] {
      assert xs + ys == ys;
    } else {
      assert (xs + ys)[0] == xs[0];
      assert (xs + ys)[1..] == xs[1..] + ys;
      StrippedPiecesAppend(xs[1..], ys);
    }
  }

  /** Stripping strings that are already stripped and non-blank keeps them all. */
  lemma {:induction false} StrippedPiecesOfStripped(xs: seq<string>)
    requires forall k :: 0 <= k < |xs| ==> xs[k] != [] && Stripped(xs[k])
    ensures StrippedPieces(xs) == xs
  {
    if xs != [] {
      StripStripped(xs[0]);
      StrippedPiecesOfStripped(xs[1..]);
    }
  }

  /** Joining non-empty stripped pieces with any separator yields a stripped
      string that is empty only when there are no pieces. */
  lemma {:induction false} JoinStrippedPieces(parts: seq<string>, sep: string)
    requires forall k :: 0 <= k < |parts| ==> parts[k] != [] && Stripped(parts[k])
    ensures Stripped(Join(parts, sep))
    ensures Join(parts, sep) == [] <==> parts == []
    ensures parts != [] ==> Join(parts, sep)[0] == parts[0][0]
    ensures parts != [] ==> Join(parts, sep)[|Join(parts, sep)| - 1] == parts[|parts| - 1][|parts[|parts| - 1]| - 1]
  {
    if |parts| > 1 {
      JoinStrippedPieces(parts[1..], sep);
    }
  }

  /** BeautifulSoup's `e.get_text(sep, strip=True)`: the stripped non-blank
      text nodes joined with `sep`. The result never starts or ends with
      whitespace. */
  function GetText(e: Element, sep: string): (r: string)
    ensures Stripped(r)
  {
    var pieces := StrippedPieces(e.strings);
    JoinStrippedPieces(pieces, sep);
    Join(pieces, sep)
  }

  /** The text is empty exactly when every text node is blank. */
  lemma GetTextEmpty(e: Element, sep: string)
    ensures GetText(e, sep) == [] <==> forall k :: 0 <= k < |e.strings| ==> Blank(e.strings[k])
  {
    JoinStrippedPieces(StrippedPieces(e.strings), sep);
    StrippedPiecesEmpty(e.strings);
  }

  /** `[e.get_text(strip=True) for e in elements]`: one text per element, in order. */
  function Texts(elements: seq<Element>): (r: seq<string>)
    ensures |r| == |elements|
    ensures forall k :: 0 <= k < |r| ==> r[k] == GetText(elements[k], "")
  {
    seq(|elements|, k requires 0 <= k < |elements| => GetText(elements[k], ""))
  }

  /** An element holding one stripped, non-blank text node has that text. */
  lemma GetTextSingle(s: string, sep: string)
    requires s != [] && Stripped(s)
    ensures GetText(Element([s]), sep) == s
  {
    StrippedPiecesOfStripped([s]);
  }

  datatype CellKind = Th | Td

  /** A `th` or `td` cell with its `data-stat` attribute, if it has one. */
  datatype Cell = Cell(kind: CellKind, dataStat: Option<string>, content: Element)

  /** A `tr`, seen as the cells beneath it in document order. */
  datatype Row = Row(cells: seq<Cell>)

  /** A `table`: the rows under its `tbody` and those under its `tfoot`. */
  datatype Table = Table(bodyRows: seq<Row>, footRows: seq<Row>)

  predicate HasStat(c: Cell, kind: CellKind, stat: string) {
    c.kind == kind && c.dataStat == Some(stat)
  }

  /** `row.find(kind, {'data-stat': stat})`: the first such cell of the row. */
  function FindCell(row: Row, kind: CellKind, stat: string): (r: Option<Cell>)
    ensures r.Some? ==> HasStat(r.value, kind, stat)
    ensures r.Some? ==>
      exists i :: 0 <= i < |row.cells| && row.cells[i] == r.value && forall j :: 0 <= j < i ==> !HasStat(row.cells[j], kind, stat)
    ensures r.None? <==> forall k :: 0 <= k < |row.cells| ==> !HasStat(row.cells[k], kind, stat)
  {
    match FirstWhere(row.cells, c => HasStat(c, kind, stat))
    case None => None
    case Some(i) => Some(row.cells[i])
  }

  /** An HTTP response: its status code and its parsed body. */
  datatype Response<P> = Response(status: int, page: P)

  /** The exceptions that escape the crawl functions; none is caught, so
      each ends the run before anything is written. */
  datatype Crash =
    | MissingHref          // KeyError: the player link has no `href`
    | MissingProfileUrl    // KeyError: a stub has no `profile_url`
    | MissingNameHeading   // AttributeError: no `h1`, or no `span` inside it
    | PositionChildMissing // IndexError: the label's parent has fewer than three children
    | PositionChildNotText // the label's parent's third child is an element, not text
    | NoPositionLine       // IndexError: no line qualifies as the position
    | MissingTeamCell      // AttributeError: a totals row has no `team_id` cell
    | MissingSeasonCell    // AttributeError: a totals row has no `season` header
    | MissingStatKey       // KeyError: a `td` without `data-stat`
    | MissingYearCell      // AttributeError: a per-game row has no `year_id` header
    | MissingPerGameTable  // AttributeError: no per-game table when reading its footer
}
