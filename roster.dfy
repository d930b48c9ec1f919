/** `get_all_players_base_info`: for each letter a..z, fetch the index page
    of players whose surname starts with it, and turn each table row that has
    all five wanted cells into a stub: name, first and last season, birth
    date, colleges and, when the name links to one, the profile URL. */
module Roster {
  import opened Wrappers
  import opened Text
  import opened Seqs
  import opened Dom

  /** The `a` element inside a name cell, with its `href` if it has one. */
  datatype Link = Link(href: Option<string>)

  /** The `th[data-stat='player']` cell: its text and its first link, if any. */
  datatype NameCell = NameCell(content: Element, link: Option<Link>)

  /** One `tbody tr` of an index page, with each selected cell if present. */
  datatype RosterRow = RosterRow(
    player: Option<NameCell>,   // th[data-stat='player']
    yearMin: Option<Element>,   // td[data-stat='year_min']
    yearMax: Option<Element>,   // td[data-stat='year_max']
    birthDate: Option<Element>, // td[data-stat='birth_date']
    colleges: Option<Element>)  // td[data-stat='colleges']

  datatype IndexPage = IndexPage(rows: seq<RosterRow>)

  /** A player as listed on an index page: the roster artifact's element. */
  datatype Stub = Stub(
    name: string,
    startYear: string,
    endYear: string,
    birthDate: string,
    colleges: seq<string>,
    profileUrl: Option<string>)

  const Letters: string := "abcdefghijklmnopqrstuvwxyz"
  const SiteRoot: string := "https://www.basketball-reference.com"

  /** The index page URL for one letter. */
  function LetterUrl(letter: char): string {
    SiteRoot + "/players/" + [letter] + "/"
  }

  /** Every index page URL, in the order the crawl requests them. */
  function LetterUrls(n: nat): (urls: seq<string>)
    requires n <= |Letters|
    ensures |urls| == n
    ensures forall i :: 0 <= i < n ==> urls[i] == LetterUrl(Letters[i])
  {
    if n == 0 then [] else LetterUrls(n - 1) + [LetterUrl(Letters[n - 1])]
  }

  /** The URLs of fewer letters are a prefix of those of more. */
  lemma LetterUrlsPrefix(m: nat, n: nat)
    requires m <= n <= |Letters|
    ensures LetterUrls(m) <= LetterUrls(n)
  {
    assert LetterUrls(m) == LetterUrls(n)[..m];
  }

  /** The colleges cell: its text joined with ", ", split at every comma, each
      piece stripped and blank pieces dropped. Every college is non-blank,
      stripped and free of commas, and a blank cell gives none. */
  function Colleges(cell: Element): (r: seq<string>)
    ensures forall k :: 0 <= k < |r| ==> r[k] != [] && Stripped(r[k]) && ',' !in r[k]
    ensures GetText(cell, ", ") == [] ==> r == []
  {
    var pieces := Split(GetText(cell, ", "), ",");
    forall k | 0 <= k < |pieces| ensures ',' !in Strip(pieces[k]) {
      ContainsChar(pieces[k], ',');
      StripKeepsOut(pieces[k], ',');
    }
    StrippedPiecesFrom(pieces, ',');
    StrippedPieces(pieces)
  }

  /** `strip()` keeps a slice, so a character absent from a string is absent from it stripped. */
  lemma StripKeepsOut(s: string, c: char)
    requires c !in s
    ensures c !in Strip(s)
  {
    var r, a := Strip(s), LeadingSpaces(s);
    forall k | 0 <= k < |r| ensures r[k] != c {
      assert r[k] == s[a + k];
    }
  }

  /** Each piece kept by `StrippedPieces` is the stripped form of one of its inputs. */
  lemma {:induction false} StrippedPiecesFrom(xs: seq<string>, c: char)
    requires forall k :: 0 <= k < |xs| ==> c !in Strip(xs[k])
    ensures forall k :: 0 <= k < |StrippedPieces(xs)| ==> c !in StrippedPieces(xs)[k]
  {
    if xs != [] {
      StrippedPiecesFrom(xs[1..], c);
      var rest := StrippedPieces(xs[1..]);
      assert forall k :: 0 <= k < |rest| ==> c !in rest[k];
    }
  }

  /** The names joined with ", " are the names joined with "," after a space
      is put in front of every name but the first. */
  lemma {:induction false} JoinCommaSpace(names: seq<string>)
    requires names != []
    ensures Join(names, ", ") == Join([names[0]] + SpaceBefore(names[1..]), ",")
  {
    if |names| > 1 {
      var rest := names[1..];
      JoinCommaSpace(rest);
      var tail := SpaceBefore(rest[1..]);
      assert SpaceBefore(rest) == [" " + rest[0]] + tail;
      assert ([names[0]] + SpaceBefore(rest))[1..] == [" " + rest[0]] + tail;
      if |tail| > 0 {
        assert ([" " + rest[0]] + tail)[1..] == tail;
        assert ([rest[0]] + tail)[1..] == tail;
      }
    }
  }

  /** Each string with a space put in front. */
  function SpaceBefore(xs: seq<string>): (r: seq<string>)
    ensures |r| == |xs|
    ensures forall k :: 0 <= k < |xs| ==> r[k] == " " + xs[k]
  {
    if xs == [] then [] else [" " + xs[0]] + SpaceBefore(xs[1..])
  }

  /** College names that are non-blank, stripped and free of commas come back
      unchanged, in order, from a cell whose text nodes they are. */
  lemma CollegesOfNames(names: seq<string>)
    requires forall k :: 0 <= k < |names| ==> names[k] != [] && Stripped(names[k]) && ',' !in names[k]
    ensures Colleges(Element(names)) == names
  {
    StrippedPiecesOfStripped(names);
    var text := GetText(Element(names), ", ");
    assert text == Join(names, ", ");
    if names == [] {
      assert Split(text, ",") == [""];
      assert StrippedPieces([""]) == [];
    } else {
      SplitCommaSpace(names);
      var pieces := [names[0]] + SpaceBefore(names[1..]);
      forall k | 0 <= k < |pieces| ensures Strip(pieces[k]) == names[k] {
        if k == 0 { StripStripped(names[0]); } else { StripSpaceThenWord(names[k]); }
      }
      StrippedPiecesOfWords(pieces, names);
    }
  }

  /** The text nodes of a cell whose names are links separated by text:
      the names with `sep` between each two. */
  function Interleave(names: seq<string>, sep: string): (r: seq<string>)
    ensures names == [] <==> r == []
    ensures names != [] ==> |r| == 2 * |names| - 1 && r[0] == names[0]
  {
    if |names| <= 1 then names else [names[0], sep] + Interleave(names[1..], sep)
  }

  /** The pieces that splitting a linked cell's text at "," leaves: after the
      first name, a blank piece, an empty piece and the next name behind a space. */
  function Gaps(names: seq<string>): (r: seq<string>)
    ensures |r| == 3 * |names|
  {
    if names == [] then [] else [" ", "", " " + names[0]] + Gaps(names[1..])
  }

  /** `", ".strip()` is ",". */
  lemma StripCommaSpace()
    ensures Strip(", ") == ","
  {
    assert LeadingSpaces(", ") == 0;
    assert TrailingSpaces(",") == 0;
    assert TrailingSpaces(", ") == 1;
  }

  /** Each separator text node is kept by `get_text(strip=True)` as its stripped form. */
  lemma {:induction false} StrippedInterleaveOf(names: seq<string>, sep: string, kept: string)
    requires Strip(sep) == kept && kept != []
    requires forall k :: 0 <= k < |names| ==> names[k] != [] && Stripped(names[k])
    ensures StrippedPieces(Interleave(names, sep)) == Interleave(names, kept)
    decreases |names|
  {
    if |names| == 1 {
      StrippedPiecesOfStripped(names);
    } else if |names| > 1 {
      var rest := names[1..];
      assert StrippedPieces([names[0], sep]) == [names[0], kept] by {
        StrippedPiecesSingle(names[0]);
        StripStripped(names[0]);
        StrippedPiecesSingle(sep);
        StrippedPiecesAppend([names[0]], [sep]);
        assert [names[0]] + [sep] == [names[0], sep];
      }
      assert Interleave(names, sep) == [names[0], sep] + Interleave(rest, sep);
      StrippedPiecesAppend([names[0], sep], Interleave(rest, sep));
      StrippedInterleaveOf(rest, sep, kept);
    }
  }

  /** Each ", " text node is kept by `get_text(strip=True)` as ",". */
  lemma StrippedInterleave(names: seq<string>)
    requires forall k :: 0 <= k < |names| ==> names[k] != [] && Stripped(names[k])
    ensures StrippedPieces(Interleave(names, ", ")) == Interleave(names, ",")
  {
    StripCommaSpace();
    StrippedInterleaveOf(names, ", ", ",");
  }

  /** Joining a string in front of a non-empty list puts the separator between them. */
  lemma JoinCons(a: string, rest: seq<string>, sep: string)
    requires rest != []
    ensures Join([a] + rest, sep) == a + sep + Join(rest, sep)
  {
    assert ([a] + rest)[1..] == rest;
  }

  /** Joining an interleaving of two or more names, behind a prefix `p`:
      the prefixed first name, then `sep + c + sep`, then the joined
      interleaving of the rest. */
  lemma JoinInterleaveStep(p: string, names: seq<string>, c: string, sep: string)
    requires |names| > 1
    ensures p + Join(Interleave(names, c), sep) == (p + names[0]) + sep + c + sep + Join(Interleave(names[1..], c), sep)
  {
    var tail := Interleave(names[1..], c);
    var j := Join(tail, sep);
    assert Join(Interleave(names, c), sep) == names[0] + sep + Join([c] + tail, sep) by {
      assert Interleave(names, c) == [names[0]] + ([c] + tail);
      JoinCons(names[0], [c] + tail, sep);
    }
    assert Join([c] + tail, sep) == c + sep + j by {
      JoinCons(c, tail, sep);
    }
    RegroupJoin(p, names[0], sep, c, j);
  }

  /** Splitting at `c` past a `c`-free word, `c`, a `c`-free word and `c`
      twice leaves the two words and an empty piece. */
  lemma SplitTwoThenEmpty(a: string, c: char, b: string, t: string)
    requires c !in a && c !in b
    ensures Split(a + [c] + b + [c] + [c] + t, [c]) == [a, b, ""] + Split(t, [c])
  {
    var r := Split(t, [c]);
    var u := [] + [c] + t;
    assert Split(u, [c]) == [[]] + r by {
      SplitAfterChar([], c, t);
    }
    assert Split(b + [c] + u, [c]) == [b] + ([[]] + r) by {
      SplitAfterChar(b, c, u);
    }
    assert Split(a + [c] + b + [c] + [c] + t, [c]) == [a] + ([b] + ([[]] + r)) by {
      RegroupTwoChars(a, c, b, t);
      SplitAfterChar(a, c, b + [c] + u);
    }
    RegroupThree(a, b, [], r);
  }

  /** Concatenation regrouped around two separators. */
  lemma RegroupTwoChars<T>(a: seq<T>, c: T, b: seq<T>, t: seq<T>)
    ensures a + [c] + b + [c] + [c] + t == a + [c] + (b + [c] + ([] + [c] + t))
  {
  }

  /** Three single pieces in front of a list are a list of three in front of it. */
  lemma RegroupThree<T>(x: T, y: T, z: T, r: seq<T>)
    ensures [x] + ([y] + ([z] + r)) == [x, y, z] + r
  {
  }

  /** A separator `[c] + x` written out around `c`. */
  lemma RegroupSeparators<T>(a: seq<T>, c: T, x: seq<T>, t: seq<T>)
    ensures a + ([c] + x) + [c] + ([c] + x) + t == a + [c] + x + [c] + [c] + (x + t)
  {
  }

  /** Splitting at "," past a comma-free word followed by ", " + "," + ", " leaves the
      word, a blank piece and an empty piece. */
  lemma SplitGap(a: string, t: string)
    requires ',' !in a
    ensures Split(a + ", " + "," + ", " + t, ",") == [a, " ", ""] + Split(" " + t, ",")
  {
    assert ", " == [','] + " ";
    RegroupSeparators(a, ',', " ", t);
    SplitTwoThenEmpty(a, ',', " ", " " + t);
  }

  /** The text of a cell with one name, behind a comma-free prefix, is one piece. */
  lemma SplitLinkedOne(p: string, names: seq<string>)
    requires |names| == 1 && ',' !in p && ',' !in names[0]
    ensures Split(p + Join(Interleave(names, ","), ", "), ",") == [p + names[0]]
  {
    SplitNoChar(p + names[0], ',');
  }

  /** The first name of a linked cell's text, behind a comma-free prefix,
      is followed by a blank and an empty piece, then the rest behind a space. */
  lemma SplitLinkedStep(p: string, names: seq<string>)
    requires |names| > 1 && ',' !in p && ',' !in names[0]
    ensures Split(p + Join(Interleave(names, ","), ", "), ",")
         == [p + names[0], " ", ""] + Split(" " + Join(Interleave(names[1..], ","), ", "), ",")
  {
    JoinInterleaveStep(p, names, ",", ", ");
    SplitGap(p + names[0], Join(Interleave(names[1..], ","), ", "));
  }

  /** Three pieces then one more are one piece then three more. */
  lemma RegroupGaps<T>(x: T, a: T, b: T, y: T, g: seq<T>)
    ensures [x, a, b] + ([y] + g) == [x] + ([a, b, y] + g)
  {
  }

  /** A linked cell's text, behind a comma-free prefix, splits at "," into
      the prefixed first name followed by the gaps around the other names. */
  lemma {:induction false} SplitLinked(p: string, names: seq<string>)
    requires names != [] && ',' !in p
    requires forall k :: 0 <= k < |names| ==> ',' !in names[k]
    ensures Split(p + Join(Interleave(names, ","), ", "), ",") == [p + names[0]] + Gaps(names[1..])
    decreases |names|
  {
    if |names| == 1 {
      SplitLinkedOne(p, names);
    } else {
      var rest := Join(Interleave(names[1..], ","), ", ");
      var g := Gaps(names[2..]);
      var tail := Split(" " + rest, ",");
      assert Split(p + Join(Interleave(names, ","), ", "), ",") == [p + names[0], " ", ""] + tail by {
        SplitLinkedStep(p, names);
      }
      assert tail == [" " + names[1]] + g by {
        SplitLinked(" ", names[1..]);
        assert names[1..][1..] == names[2..];
      }
      assert Gaps(names[1..]) == [" ", "", " " + names[1]] + g by {
        assert names[1..][1..] == names[2..];
      }
      RegroupGaps(p + names[0], " ", "", " " + names[1], g);
    }
  }

  /** The three gap pieces in front of a name keep only the name. */
  lemma GapPieces(x: string)
    requires x != [] && Stripped(x)
    ensures StrippedPieces([" ", "", " " + x]) == [x]
  {
    StripSpaceThenWord(x);
    assert IsSpace(" "[0]);
    assert Blank(" ") && Blank("");
    var xs := [" ", "", " " + x];
    assert xs[1..] == ["", " " + x];
    assert xs[1..][1..] == [" " + x];
    assert StrippedPieces([" " + x]) == [x] by {
      assert [" " + x][1..] == [];
    }
    assert StrippedPieces(xs[1..]) == [x];
  }

  /** Stripping the gaps keeps the names behind them and drops the rest. */
  lemma {:induction false} StrippedGaps(names: seq<string>)
    requires forall k :: 0 <= k < |names| ==> names[k] != [] && Stripped(names[k])
    ensures StrippedPieces(Gaps(names)) == names
    decreases |names|
  {
    if names != [] {
      GapPieces(names[0]);
      StrippedPiecesAppend([" ", "", " " + names[0]], Gaps(names[1..]));
      StrippedGaps(names[1..]);
      assert names == [names[0]] + names[1..];
    }
  }

  /** A linked cell's text, split at ",", is the first name and the gaps after it. */
  lemma SplitLinkedText(names: seq<string>)
    requires names != []
    requires forall k :: 0 <= k < |names| ==> names[k] != [] && Stripped(names[k]) && ',' !in names[k]
    ensures Split(GetText(Element(Interleave(names, ", ")), ", "), ",") == [names[0]] + Gaps(names[1..])
  {
    var text := Join(Interleave(names, ","), ", ");
    assert GetText(Element(Interleave(names, ", ")), ", ") == text by {
      StrippedInterleave(names);
    }
    SplitLinked("", names);
    assert "" + text == text;
    assert "" + names[0] == names[0];
  }

  /** Stripping the first name and the gaps after it gives the names back. */
  lemma StrippedLinkedPieces(names: seq<string>)
    requires names != []
    requires forall k :: 0 <= k < |names| ==> names[k] != [] && Stripped(names[k])
    ensures StrippedPieces([names[0]] + Gaps(names[1..])) == names
  {
    StrippedPiecesOfStripped([names[0]]);
    StrippedPiecesAppend([names[0]], Gaps(names[1..]));
    StrippedGaps(names[1..]);
    assert names == [names[0]] + names[1..];
  }

  /** Round trip for the usual markup, college links separated by ", " text
      nodes: the text reads "a, ,, b", splitting at "," leaves blank and empty
      pieces between the names, and dropping those gives the names back. */
  lemma CollegesOfLinkedNames(names: seq<string>)
    requires forall k :: 0 <= k < |names| ==> names[k] != [] && Stripped(names[k]) && ',' !in names[k]
    ensures Colleges(Element(Interleave(names, ", "))) == names
  {
    if names != [] {
      SplitLinkedText(names);
      StrippedLinkedPieces(names);
    }
  }

  /** Splitting names joined with ", " at each comma leaves the space in front of every name but the first. */
  lemma SplitCommaSpace(names: seq<string>)
    requires names != []
    requires forall k :: 0 <= k < |names| ==> ',' !in names[k]
    ensures Split(Join(names, ", "), ",") == [names[0]] + SpaceBefore(names[1..])
  {
    JoinCommaSpace(names);
    var pieces := [names[0]] + SpaceBefore(names[1..]);
    forall k | 0 <= k < |pieces| ensures ',' !in pieces[k] {
      if k > 0 { assert pieces[k] == " " + names[k]; }
    }
    SplitJoinChar(pieces, ',');
  }

  /** Stripping pieces whose stripped forms are the given non-blank strings gives those strings. */
  lemma {:induction false} StrippedPiecesOfWords(pieces: seq<string>, words: seq<string>)
    requires |pieces| == |words|
    requires forall k :: 0 <= k < |pieces| ==> Strip(pieces[k]) == words[k] && words[k] != []
    ensures StrippedPieces(pieces) == words
  {
    if pieces != [] {
      StrippedPiecesOfWords(pieces[1..], words[1..]);
    }
  }

  /** The profile URL of a name cell: absent without a link, the site root
      followed by the link's `href` otherwise; a link without `href` raises. */
  function ProfileUrl(cell: NameCell): (r: Result<Option<string>, Crash>)
    ensures r.Failure? <==> cell.link.Some? && cell.link.value.href.None?
    ensures r.Failure? ==> r.error == MissingHref
    ensures r.Success? ==> (r.value.Some? <==> cell.link.Some?)
    ensures r.Success? && r.value.Some? ==>
      SiteRoot <= r.value.value && r.value.value[|SiteRoot|..] == cell.link.value.href.value
  {
    match cell.link
    case None => Success(None)
    case Some(link) =>
      match link.href
      case None => Failure(MissingHref)
      case Some(href) => Success(Some(SiteRoot + href))
  }

  /** A row is kept only when all five cells were found. */
  predicate Complete(row: RosterRow) {
    row.player.Some? && row.yearMin.Some? && row.yearMax.Some? && row.birthDate.Some? && row.colleges.Some?
  }

  /** What every stub looks like: stripped texts, and college names that are
      non-empty, stripped and free of commas. */
  predicate CleanStub(stub: Stub) {
    && Stripped(stub.name) && Stripped(stub.startYear) && Stripped(stub.endYear) && Stripped(stub.birthDate)
    && forall k :: 0 <= k < |stub.colleges| ==> stub.colleges[k] != [] && Stripped(stub.colleges[k]) && ',' !in stub.colleges[k]
  }

  /** The stub of a complete row. */
  function MakeStub(row: RosterRow): (r: Result<Stub, Crash>)
    requires Complete(row)
    ensures r.Success? <==> ProfileUrl(row.player.value).Success?
    ensures r.Success? ==> r.value.profileUrl == ProfileUrl(row.player.value).value
    ensures r.Success? ==> r.value == Stub(
      GetText(row.player.value.content, ""),
      GetText(row.yearMin.value, ""),
      GetText(row.yearMax.value, ""),
      GetText(row.birthDate.value, ""),
      Colleges(row.colleges.value),
      ProfileUrl(row.player.value).value)
    ensures r.Success? ==> CleanStub(r.value)
  {
    var url :- ProfileUrl(row.player.value);
    Success(Stub(
      GetText(row.player.value.content, ""),
      GetText(row.yearMin.value, ""),
      GetText(row.yearMax.value, ""),
      GetText(row.birthDate.value, ""),
      Colleges(row.colleges.value),
      url))
  }

  /** What one row contributes: nothing when a cell is missing, a stub when
      all five are there, an exception when the name links without `href`. */
  function RowStub(row: RosterRow): (r: Result<Option<Stub>, Crash>)
    ensures r == Success(None) <==> !Complete(row)
    ensures r.Success? && r.value.Some? <==> Complete(row) && MakeStub(row).Success?
    ensures r.Success? && r.value.Some? ==> MakeStub(row) == Success(r.value.value)
  {
    if Complete(row) then
      var stub :- MakeStub(row);
      Success(Some(stub))
    else Success(None)
  }

  /** The stubs of one index page, in row order: the page raises exactly
      when one of its rows does, and gives at most one stub per row. */
  function PageStubs(rows: seq<RosterRow>): (r: Result<seq<Stub>, Crash>)
    ensures r.Success? <==> forall k :: 0 <= k < |rows| ==> RowStub(rows[k]).Success?
    ensures r.Failure? ==> exists k :: 0 <= k < |rows| && RowStub(rows[k]) == Failure(r.error) && SucceedsBefore(rows, RowStub, k)
    ensures r.Success? ==> |r.value| <= |rows|
    ensures r.Success? ==> forall k :: 0 <= k < |r.value| ==> CleanStub(r.value[k])
  {
    var found :- MapResult(rows, RowStub);
    var stubs := Somes(found);
    forall k | 0 <= k < |stubs| ensures CleanStub(stubs[k]) {
      var i :| 0 <= i < |found| && found[i] == Some(stubs[k]);
      assert RowStub(rows[i]) == Success(Some(stubs[k]));
    }
    Success(stubs)
  }

  /** The stubs gathered from the first `n` letters: a page answered with a
      status other than 200 adds nothing. */
  function LettersStubs(fetch: string -> Response<IndexPage>, n: nat): (r: Result<seq<Stub>, Crash>)
    requires n <= |Letters|
    ensures n == 0 ==> r == Success([])
    ensures r.Success? ==> forall k :: 0 <= k < |r.value| ==> CleanStub(r.value[k])
  {
    if n == 0 then Success([])
    else
      var before :- LettersStubs(fetch, n - 1);
      var response := fetch(LetterUrl(Letters[n - 1]));
      if response.status == 200 then
        var page :- PageStubs(response.page.rows);
        Success(before + page)
      else Success(before)
  }

  /** One more letter: the stubs so far, then that letter's page stubs if it was answered with 200. */
  lemma LettersStubsStep(fetch: string -> Response<IndexPage>, n: nat)
    requires 0 < n <= |Letters|
    ensures var response := fetch(LetterUrl(Letters[n - 1]));
      LettersStubs(fetch, n) ==
        match LettersStubs(fetch, n - 1)
        case Failure(e) => Failure(e)
        case Success(before) =>
          if response.status != 200 then Success(before)
          else (match PageStubs(response.page.rows) case Failure(e) => Failure(e) case Success(page) => Success(before + page))
  {
  }

  /** The number of the first `n` letters whose page was answered with 200. */
  function OkLetters(fetch: string -> Response<IndexPage>, n: nat): (count: nat)
    requires n <= |Letters|
    ensures count <= n
  {
    if n == 0 then 0
    else OkLetters(fetch, n - 1) + (if fetch(LetterUrl(Letters[n - 1])).status == 200 then 1 else 0)
  }

  /** The stubs of a page are those of all but its last row, then the last row's stub if it is complete. */
  lemma PageStubsSnoc(rows: seq<RosterRow>)
    requires rows != [] && PageStubs(rows).Success?
    ensures PageStubs(rows[..|rows| - 1]).Success?
    ensures var last := rows[|rows| - 1];
      PageStubs(rows).value == PageStubs(rows[..|rows| - 1]).value + (if Complete(last) then [MakeStub(last).value] else [])
  {
    var init, last := rows[..|rows| - 1], rows[|rows| - 1];
    MapResultSnoc(rows, RowStub);
    SomesSnoc(MapResult(init, RowStub).value, RowStub(last).value);
  }

  /** On a page, the stubs are those of the complete rows, one each, in document order. */
  lemma {:induction false} PageStubsAreCompleteRows(rows: seq<RosterRow>)
    requires PageStubs(rows).Success?
    ensures |PageStubs(rows).value| == |Filter(rows, Complete)|
    ensures forall k :: 0 <= k < |Filter(rows, Complete)| ==>
      MakeStub(Filter(rows, Complete)[k]) == Success(PageStubs(rows).value[k])
  {
    if rows != [] {
      var init, last := rows[..|rows| - 1], rows[|rows| - 1];
      PageStubsSnoc(rows);
      PageStubsAreCompleteRows(init);
      var stubs, stubsInit := PageStubs(rows).value, PageStubs(init).value;
      var complete, completeInit := Filter(rows, Complete), Filter(init, Complete);
      assert complete == completeInit + (if Complete(last) then [last] else []);
      forall k | 0 <= k < |complete|
        ensures MakeStub(complete[k]) == Success(stubs[k])
      {
        if k < |completeInit| {
          assert complete[k] == completeInit[k] && stubs[k] == stubsInit[k];
        } else {
          assert complete[k] == last && stubs[k] == MakeStub(last).value;
        }
      }
    }
  }

  /** A complete row whose name links without `href` makes the page raise. */
  lemma PageCrashesOnMissingHref(rows: seq<RosterRow>, i: nat)
    requires i < |rows| && Complete(rows[i])
    requires rows[i].player.value.link == Some(Link(None))
    ensures PageStubs(rows).Failure?
  {
    assert !RowStub(rows[i]).Success?;
  }

  /** Stubs from earlier letters come first: the stubs of the first `m`
      letters are a prefix of those of the first `n`. */
  lemma {:induction false} LettersStubsPrefix(fetch: string -> Response<IndexPage>, m: nat, n: nat)
    requires m <= n <= |Letters|
    requires LettersStubs(fetch, n).Success?
    ensures LettersStubs(fetch, m).Success?
    ensures LettersStubs(fetch, m).value <= LettersStubs(fetch, n).value
    decreases n
  {
    if m < n {
      LettersStubsPrefix(fetch, m, n - 1);
    }
  }

  /** A letter whose page fails adds nothing, and the crawl goes on to the next letter. */
  lemma FailedLetterAddsNothing(fetch: string -> Response<IndexPage>, n: nat)
    requires n < |Letters|
    requires fetch(LetterUrl(Letters[n])).status != 200
    ensures LettersStubs(fetch, n + 1) == LettersStubs(fetch, n)
  {
  }

  /** Crawl the index pages a..z, keeping the stubs of every page answered
      with 200; the first exception ends the crawl. Also returns the URLs
      requested, in order, and the number of ten-second pauses, one after
      each page answered with 200. */
  method CrawlRoster(fetch: string -> Response<IndexPage>)
    returns (result: Result<seq<Stub>, Crash>, requested: seq<string>, sleeps: nat)
    ensures result == LettersStubs(fetch, |Letters|)
    ensures requested <= LetterUrls(|Letters|)
    ensures result.Success? ==> requested == LetterUrls(|Letters|)
    ensures result.Success? ==> sleeps == OkLetters(fetch, |Letters|)
    ensures result.Failure? ==> StoppedAt(fetch, |requested|, sleeps)
    ensures sleeps <= |requested|
  {
    var players: seq<Stub> := [];
    requested, sleeps := [], 0;
    for i := 0 to |Letters|
      invariant LettersStubs(fetch, i) == Success(players)
      invariant requested == LetterUrls(i)
      invariant sleeps == OkLetters(fetch, i)
    {
      LettersStubsStep(fetch, i + 1);
      var url := LetterUrl(Letters[i]);
      var response := fetch(url);
      requested := requested + [url];
      if response.status == 200 {
        var page := CollectPage(response.page.rows);
        if page.Failure? {
          CrawlStopsAt(fetch, i, page.error, requested, sleeps);
          result := Failure(page.error);
          return;
        }
        players := players + page.value;
        sleeps := sleeps + 1;
      }
    }
    result := Success(players);
  }

  /** The crawl stopped at the `n`-th letter: the first `n - 1` letters went
      through, with `sleeps` pages among them answered with 200, and the
      `n`-th raised. */
  predicate StoppedAt(fetch: string -> Response<IndexPage>, n: nat, sleeps: nat) {
    && 0 < n <= |Letters|
    && LettersStubs(fetch, n).Failure?
    && LettersStubs(fetch, n - 1).Success?
    && sleeps == OkLetters(fetch, n - 1)
  }

  /** Where letter `i`'s page raises, the crawl ends with that exception,
      having requested the URLs of letters up to `i` and paused once per
      earlier page answered with 200. */
  lemma CrawlStopsAt(fetch: string -> Response<IndexPage>, i: nat, e: Crash, requested: seq<string>, sleeps: nat)
    requires i < |Letters|
    requires LettersStubs(fetch, i).Success? && LettersStubs(fetch, i + 1) == Failure(e)
    requires requested == LetterUrls(i + 1) && sleeps == OkLetters(fetch, i)
    ensures LettersStubs(fetch, |Letters|) == Failure(e)
    ensures requested <= LetterUrls(|Letters|)
    ensures StoppedAt(fetch, |requested|, sleeps)
    ensures sleeps <= |requested|
  {
    LettersStubsFailurePersists(fetch, i + 1, e);
    LetterUrlsPrefix(i + 1, |Letters|);
    assert |requested| == i + 1;
  }

  /** The rows of one index page, in order: a row with all five cells is
      appended as a stub, the others are passed over. */
  method CollectPage(rows: seq<RosterRow>) returns (result: Result<seq<Stub>, Crash>)
    ensures result == PageStubs(rows)
  {
    var players: seq<Stub> := [];
    for j := 0 to |rows|
      invariant MapResult(rows[..j], RowStub).Success?
      invariant players == Somes(MapResult(rows[..j], RowStub).value)
    {
      assert rows[..j + 1][..j] == rows[..j];
      var found := RowStub(rows[j]);
      match found {
        case Failure(e) =>
          assert MapResult(rows[..j + 1], RowStub) == Failure(e);
          MapResultFailurePersists(rows, j + 1, RowStub);
          return Failure(e);
        case Success(None) =>
        case Success(Some(stub)) =>
          players := players + [stub];
      }
    }
    assert rows[..|rows|] == rows;
    result := Success(players);
  }

  /** Once the crawl of the first `n` letters raises, the whole crawl raises the same. */
  lemma {:induction false} LettersStubsFailurePersists(fetch: string -> Response<IndexPage>, n: nat, e: Crash)
    requires n <= |Letters|
    requires LettersStubs(fetch, n) == Failure(e)
    ensures LettersStubs(fetch, |Letters|) == Failure(e)
    decreases |Letters| - n
  {
    if n < |Letters| {
      LettersStubsStep(fetch, n + 1);
      LettersStubsFailurePersists(fetch, n + 1, e);
    }
  }
}
