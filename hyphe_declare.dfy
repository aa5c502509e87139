/** The `hyphe declare` action (minet/cli/hyphe/declare.py): reading a Hyphe
    web-entities export and deriving, row by row, what is declared to the
    Hyphe corpus. The calls to the Hyphe API are not modelled; a row's
    declaration is the set of arguments the action passes to
    `store.declare_webentity_by_lrus`, plus the raw home page. */
module HypheDeclare {
  import opened Wrappers
  import opened PyStr

  /** A CSV row: one cell per column. */
  type Row = seq<string>

  /** The reader's header mapping, in column order: (header name, column index). */
  type Headers = seq<(string, nat)>

  /** A tag column: the tag name and the column it is read from. */
  type TagColumn = (string, nat)

  /** The tags of one web entity: tag name to its values. */
  type Tags = map<string, seq<string>>

  /** Every header position is a cell of the row. */
  predicate RowFits(row: Row, h: Headers)
  {
    forall k :: 0 <= k < |h| ==> h[k].1 < |row|
  }

  /** `headers.get(name)`: the column of the first header called `name`. */
  function Lookup(h: Headers, name: string): (r: Option<nat>)
    ensures r.Some? ==> exists k :: 0 <= k < |h| && h[k] == (name, r.value)
    ensures r.None? <==> forall k :: 0 <= k < |h| ==> h[k].0 != name
  {
    if h == [] then None
    else if h[0].0 == name then Some(h[0].1)
    else
      var r := Lookup(h[1..], name);
      assert forall k :: 1 <= k < |h| ==> h[k] == h[1..][k - 1];
      r
  }

  /** A header that names a tag column ends with `(TAGS)`. */
  predicate IsTagHeader(name: string)
  {
    EndsWith(name, "(TAGS)")
  }

  /** `name.split("(TAGS)", 1)[0].strip()`. */
  function TagName(name: string): string
  {
    Strip(BeforeFirst(name, "(TAGS)"))
  }

  /** The tag-column comprehension: the headers ending in `(TAGS)`, in
      header order, each with its tag name and column. */
  function TagColumns(h: Headers): (r: seq<TagColumn>)
    ensures |r| <= |h|
  {
    if h == [] then []
    else
      var rest := TagColumns(h[1..]);
      TagColumnOf(h[0]) + rest
  }

  /** The tag column one header contributes: none unless it ends in `(TAGS)`. */
  function TagColumnOf(header: (string, nat)): (r: seq<TagColumn>)
    ensures |r| <= 1
    ensures r != [] <==> IsTagHeader(header.0)
  {
    if IsTagHeader(header.0) then [(TagName(header.0), header.1)] else []
  }

  /** The header `h[j]` is a tag header and yields the tag column `c`. */
  predicate YieldsColumn(h: Headers, j: int, c: TagColumn)
  {
    0 <= j < |h| && IsTagHeader(h[j].0) && c == (TagName(h[j].0), h[j].1)
  }

  /** The tag columns are exactly those the `(TAGS)` headers yield. */
  lemma {:induction false} TagColumnsMembers(h: Headers)
    ensures forall c :: c in TagColumns(h) <==> exists j :: YieldsColumn(h, j, c)
  {
    if h != [] {
      TagColumnsMembers(h[1..]);
      forall c ensures c in TagColumns(h) <==> exists j :: YieldsColumn(h, j, c) {
        TagColumnMember(h, c);
      }
    }
  }

  /** One step of TagColumnsMembers, for one candidate column. */
  lemma TagColumnMember(h: Headers, c: TagColumn)
    requires h != []
    requires c in TagColumns(h[1..]) <==> exists j :: YieldsColumn(h[1..], j, c)
    ensures c in TagColumns(h) <==> exists j :: YieldsColumn(h, j, c)
  {
    var rest := TagColumns(h[1..]);
    assert TagColumns(h) == TagColumnOf(h[0]) + rest;
    if c in TagColumnOf(h[0]) {
      assert YieldsColumn(h, 0, c);
    }
    if c in rest {
      var j :| YieldsColumn(h[1..], j, c);
      assert h[1..][j] == h[j + 1];
      assert YieldsColumn(h, j + 1, c);
    }
    if exists j :: YieldsColumn(h, j, c) {
      var j :| YieldsColumn(h, j, c);
      if j == 0 {
        assert c in TagColumnOf(h[0]);
      } else {
        assert h[1..][j - 1] == h[j];
        assert YieldsColumn(h[1..], j - 1, c);
      }
    }
  }

  /** Tag columns keep header order: the columns of two runs of headers
      are the columns of the first run followed by those of the second. */
  lemma {:induction false} TagColumnsAppend(a: Headers, b: Headers)
    ensures TagColumns(a + b) == TagColumns(a) + TagColumns(b)
  {
    if a != [] {
      assert (a + b)[0] == a[0];
      assert (a + b)[1..] == a[1..] + b;
      TagColumnsAppend(a[1..], b);
    } else {
      assert a + b == b;
    }
  }

  /** A tag name is the whitespace-stripped text before the first `(TAGS)`
      of its header: that text followed by `(TAGS)` starts the header, and
      contains no `(TAGS)` itself. */
  lemma TagNameShape(name: string)
    requires IsTagHeader(name)
    ensures var before := BeforeFirst(name, "(TAGS)");
      && StartsWith(name, before + "(TAGS)")
      && !Contains(before, "(TAGS)")
      && TagName(name) == Strip(before)
  {
    var p := "(TAGS)";
    assert MatchAt(name, p, |name| - |p|);
  }

  /** The five columns a web-entities export must have. */
  datatype Positions = Positions(name: nat, homepage: nat, prefixes: nat, status: nat, startpages: nat)

  /** The errors of the action: `InvalidArgumentsError`, raised by the
      command-line layer, and the `IndexError` of `row[pos]` on a row that
      has no cell at a column that is read. */
  datatype DeclareError = InvalidArgumentsError(msg: string) | IndexError

  /** The required-header check: every column among NAME, HOME PAGE,
      PREFIXES AS LRU, STATUS and START PAGES must be present. */
  function RequiredPositions(h: Headers): (r: Result<Positions, DeclareError>)
    ensures r.Err? <==>
      Lookup(h, "NAME").None? || Lookup(h, "HOME PAGE").None? || Lookup(h, "PREFIXES AS LRU").None?
      || Lookup(h, "STATUS").None? || Lookup(h, "START PAGES").None?
    ensures r.Err? ==> r.error == InvalidArgumentsError("input csv file is not a valid hyphe webentities export")
    ensures r.Ok? ==>
      && Lookup(h, "NAME") == Some(r.value.name)
      && Lookup(h, "HOME PAGE") == Some(r.value.homepage)
      && Lookup(h, "PREFIXES AS LRU") == Some(r.value.prefixes)
      && Lookup(h, "STATUS") == Some(r.value.status)
      && Lookup(h, "START PAGES") == Some(r.value.startpages)
  {
    var name := Lookup(h, "NAME");
    var homepage := Lookup(h, "HOME PAGE");
    var prefixes := Lookup(h, "PREFIXES AS LRU");
    var status := Lookup(h, "STATUS");
    var startpages := Lookup(h, "START PAGES");
    if name.None? || prefixes.None? || homepage.None? || status.None? || startpages.None? then
      Err(InvalidArgumentsError("input csv file is not a valid hyphe webentities export"))
    else
      Ok(Positions(name.value, homepage.value, prefixes.value, status.value, startpages.value))
  }

  /** Every required column found lies among the row's cells. */
  lemma PositionsFit(h: Headers, row: Row)
    requires RowFits(row, h) && RequiredPositions(h).Ok?
    ensures var p := RequiredPositions(h).value;
      p.name < |row| && p.homepage < |row| && p.prefixes < |row| && p.status < |row| && p.startpages < |row|
  {
  }

  /** Tag columns taken from the headers lie among the row's cells. */
  lemma TagColumnsFit(h: Headers, row: Row)
    requires RowFits(row, h)
    ensures forall k :: 0 <= k < |TagColumns(h)| ==> TagColumns(h)[k].1 < |row|
  {
    TagColumnsMembers(h);
    forall k | 0 <= k < |TagColumns(h)| ensures TagColumns(h)[k].1 < |row| {
      assert TagColumns(h)[k] in TagColumns(h);
      var j :| YieldsColumn(h, j, TagColumns(h)[k]);
    }
  }

  /** The tags map `extract_tags` fills, one tag column at a time: an empty
      cell adds nothing, a non-empty cell sets its tag to the cell's
      `|`-separated pieces. */
  function TagsOf(row: Row, tp: seq<TagColumn>): Tags
    requires forall k :: 0 <= k < |tp| ==> tp[k].1 < |row|
    decreases |tp|
  {
    if tp == [] then map[]
    else
      var m := TagsOf(row, tp[..|tp| - 1]);
      var (name, pos) := tp[|tp| - 1];
      if row[pos] == "" then m else m[name := Split(row[pos], "|")]
  }

  /** `extract_tags(row, tag_pos_list)`. */
  method ExtractTags(row: Row, tp: seq<TagColumn>) returns (r: map<string, Tags>)
    requires forall k :: 0 <= k < |tp| ==> tp[k].1 < |row|
    ensures r.Keys == {"USER"}
    ensures r["USER"] == TagsOf(row, tp)
  {
    var tags: Tags := map[];
    for i := 0 to |tp|
      invariant tags == TagsOf(row, tp[..i])
    {
      assert tp[..i + 1][..i] == tp[..i];
      var (name, pos) := tp[i];
      var cell := row[pos];
      if cell == "" {
        continue;
      }
      tags := tags[name := Split(cell, "|")];
    }
    assert tp[..|tp|] == tp;
    r := map["USER" := tags];
  }

  /** A tag is in the map exactly when some column of that name has a
      non-empty cell; in particular an empty cell contributes no entry. */
  lemma {:induction false} TagsOfKeys(row: Row, tp: seq<TagColumn>, name: string)
    requires forall k :: 0 <= k < |tp| ==> tp[k].1 < |row|
    ensures name in TagsOf(row, tp) <==>
      exists k :: 0 <= k < |tp| && tp[k].0 == name && row[tp[k].1] != ""
    decreases |tp|
  {
    if tp != [] {
      var init := tp[..|tp| - 1];
      TagsOfKeys(row, init, name);
      assert forall k :: 0 <= k < |init| ==> init[k] == tp[k];
    }
  }

  /** Among same-named tag columns the last one with a non-empty cell wins:
      its `|`-separated pieces are the tag's values. */
  lemma {:induction false} TagsOfLastWins(row: Row, tp: seq<TagColumn>, k: nat)
    requires forall j :: 0 <= j < |tp| ==> tp[j].1 < |row|
    requires k < |tp| && row[tp[k].1] != ""
    requires forall j :: k < j < |tp| && tp[j].0 == tp[k].0 ==> row[tp[j].1] == ""
    ensures tp[k].0 in TagsOf(row, tp)
    ensures TagsOf(row, tp)[tp[k].0] == Split(row[tp[k].1], "|")
    decreases |tp|
  {
    if k < |tp| - 1 {
      var init := tp[..|tp| - 1];
      assert forall j :: 0 <= j < |init| ==> init[j] == tp[j];
      TagsOfLastWins(row, init, k);
    }
  }

  /** Joining a tag's values with `|` gives back the cell they came from. */
  lemma {:induction false} TagValuesRestoreCell(row: Row, tp: seq<TagColumn>, name: string)
    requires forall k :: 0 <= k < |tp| ==> tp[k].1 < |row|
    requires name in TagsOf(row, tp)
    ensures exists k :: (0 <= k < |tp| && tp[k].0 == name && row[tp[k].1] != ""
      && Join(TagsOf(row, tp)[name], "|") == row[tp[k].1])
    decreases |tp|
  {
    var init := tp[..|tp| - 1];
    var (last, pos) := tp[|tp| - 1];
    if last == name && row[pos] != "" {
      JoinSplit(row[pos], "|");
      assert tp[|tp| - 1].0 == name;
    } else {
      assert forall k :: 0 <= k < |init| ==> init[k] == tp[k];
      TagValuesRestoreCell(row, init, name);
    }
  }

  /** The start pages of a row: none for an empty cell, otherwise the
      space-separated pieces without duplicates. */
  function StartPages(cell: string): (r: seq<string>)
    ensures cell == "" ==> r == []
    ensures cell != "" ==>
      && (forall i :: 0 <= i < |Split(cell, " ")| ==> Split(cell, " ")[i] in r)
      && (forall i :: 0 <= i < |r| ==> r[i] in Split(cell, " "))
      && (forall i, j :: 0 <= i < j < |r| ==> r[i] != r[j])
  {
    Dedupe(if cell != "" then Split(cell, " ") else [])
  }

  /** What the action declares for one row. */
  datatype Declaration = Declaration(
    lrus: seq<string>,
    name: string,
    status: string,
    startpages: seq<string>,
    tags: map<string, Tags>,
    homepage: string)

  /** The cells read before the localhost check: start pages, name and
      prefixes. */
  predicate EarlyCells(row: Row, p: Positions)
  {
    p.startpages < |row| && p.name < |row| && p.prefixes < |row|
  }

  /** The cells read only for a kept row: home page, status and the tag
      columns. */
  predicate LateCells(row: Row, p: Positions, tp: seq<TagColumn>)
  {
    p.homepage < |row| && p.status < |row| && forall k :: 0 <= k < |tp| ==> tp[k].1 < |row|
  }

  /** The derivation for one row: `Ok(None)` when the row is dropped because
      its prefixes contain `h:localhost|`, `IndexError` when a cell it reads
      is missing. */
  function RowDeclaration(row: Row, p: Positions, tp: seq<TagColumn>): Result<Option<Declaration>, DeclareError>
  {
    if !EarlyCells(row, p) then Err(IndexError)
    else if Contains(row[p.prefixes], "h:localhost|") then Ok(None)
    else if !LateCells(row, p, tp) then Err(IndexError)
    else Ok(Some(Declaration(
      Split(row[p.prefixes], " "),
      row[p.name],
      row[p.status],
      StartPages(row[p.startpages]),
      map["USER" := TagsOf(row, tp)],
      row[p.homepage])))
  }

  /** A row fails only with `IndexError`, exactly when a cell it reads is
      missing: a localhost row needs only the three cells read before the
      check, and it alone is dropped. */
  lemma RowDeclarationOutcome(row: Row, p: Positions, tp: seq<TagColumn>)
    ensures var r := RowDeclaration(row, p, tp);
      && (r.Err? ==> r.error == IndexError)
      && (r.Err? <==> !EarlyCells(row, p) || (!Contains(row[p.prefixes], "h:localhost|") && !LateCells(row, p, tp)))
      && (r == Ok(None) <==> EarlyCells(row, p) && Contains(row[p.prefixes], "h:localhost|"))
  {
  }

  /** The only error of a row is `IndexError`. */
  lemma RowErrorIsIndex(row: Row, p: Positions, tp: seq<TagColumn>)
    ensures RowDeclaration(row, p, tp).Err? ==> RowDeclaration(row, p, tp).error == IndexError
  {
  }

  /** A row with a cell under every header is never short of a cell. */
  lemma FullRowDeclares(row: Row, h: Headers)
    requires RowFits(row, h) && RequiredPositions(h).Ok?
    ensures RowDeclaration(row, RequiredPositions(h).value, TagColumns(h)).Ok?
  {
    PositionsFit(h, row);
    TagColumnsFit(h, row);
  }

  /** The body of the row loop: read the start pages, the name and the
      prefixes, drop a localhost row, otherwise split the prefixes,
      deduplicate the start pages and extract the tags. */
  method DeclareRow(row: Row, p: Positions, tp: seq<TagColumn>) returns (d: Result<Option<Declaration>, DeclareError>)
    ensures d == RowDeclaration(row, p, tp)
  {
    if !EarlyCells(row, p) {
      return Err(IndexError);
    }
    var startpagesCell := row[p.startpages];
    var name := row[p.name];
    if Contains(row[p.prefixes], "h:localhost|") {
      return Ok(None);
    }
    if p.homepage >= |row| {
      return Err(IndexError);
    }
    var homepage := row[p.homepage];
    var prefixes := Split(row[p.prefixes], " ");
    var startpages := if startpagesCell != "" then Split(startpagesCell, " ") else [];
    startpages := Dedupe(startpages);
    if exists k :: 0 <= k < |tp| && tp[k].1 >= |row| {
      return Err(IndexError);
    }
    var tags := ExtractTags(row, tp);
    assert tags == map["USER" := TagsOf(row, tp)];
    if p.status >= |row| {
      return Err(IndexError);
    }
    d := Ok(Some(Declaration(prefixes, name, row[p.status], startpages, tags, homepage)));
  }

  /** The declarations sent for a run of rows, in row order, and the
      `IndexError` of the first row short of a cell, if any. The rows
      before that one have already been declared when it fails. */
  function Declared(rows: seq<Row>, p: Positions, tp: seq<TagColumn>): (seq<Declaration>, Option<DeclareError>)
    decreases |rows|
  {
    if rows == [] then ([], None)
    else
      var prev := Declared(rows[..|rows| - 1], p, tp);
      if prev.1.Some? then prev
      else match RowDeclaration(rows[|rows| - 1], p, tp)
        case Err(e) => (prev.0, Some(e))
        case Ok(d) => (prev.0 + (if d.Some? then [d.value] else []), None)
  }

  /** The `hyphe declare` action: the declarations it sends and the error
      it ends with, if any. The header check comes first: a missing
      required column fails before any row is read. Each row that is not
      dropped is declared, in row order; a row short of a cell it reads
      ends the action with `IndexError`, after the earlier rows were
      declared. */
  method DeclareWebEntities(h: Headers, rows: seq<Row>) returns (sent: seq<Declaration>, err: Option<DeclareError>)
    ensures RequiredPositions(h).Err? ==> sent == [] && err == Some(RequiredPositions(h).error)
    ensures RequiredPositions(h).Ok? ==> (sent, err) == Declared(rows, RequiredPositions(h).value, TagColumns(h))
    ensures err.Some? && err.value.InvalidArgumentsError? <==> RequiredPositions(h).Err?
  {
    var tp := TagColumns(h);
    var positions := RequiredPositions(h);
    if positions.Err? {
      return [], Some(positions.error);
    }
    sent, err := DeclareRows(rows, positions.value, tp);
    DeclaredOkIff(rows, positions.value, tp);
  }

  /** The row loop: one declaration per kept row, in row order, until the
      first row short of a cell. */
  method DeclareRows(rows: seq<Row>, p: Positions, tp: seq<TagColumn>) returns (sent: seq<Declaration>, err: Option<DeclareError>)
    ensures (sent, err) == Declared(rows, p, tp)
  {
    sent := [];
    for i := 0 to |rows|
      invariant Declared(rows[..i], p, tp) == (sent, None)
    {
      var d := DeclareRow(rows[i], p, tp);
      DeclaredNext(rows, i, p, tp, sent);
      if d.Err? {
        return sent, Some(d.error);
      }
      if d.value.Some? {
        sent := sent + [d.value.value];
      }
    }
    assert rows[..|rows|] == rows;
    err := None;
  }

  /** One step of the row loop: a failing row ends the whole run with the
      declarations sent so far; otherwise its declaration, if any, follows
      the earlier ones. */
  lemma DeclaredNext(rows: seq<Row>, i: nat, p: Positions, tp: seq<TagColumn>, sent: seq<Declaration>)
    requires i < |rows| && Declared(rows[..i], p, tp) == (sent, None)
    ensures var d := RowDeclaration(rows[i], p, tp);
      && (d.Err? ==> Declared(rows, p, tp) == (sent, Some(d.error)))
      && (d.Ok? && d.value.None? ==> Declared(rows[..i + 1], p, tp) == (sent, None))
      && (d.Ok? && d.value.Some? ==> Declared(rows[..i + 1], p, tp) == (sent + [d.value.value], None))
  {
    var q := rows[..i + 1];
    assert q[..|q| - 1] == rows[..i] && q[|q| - 1] == rows[i];
    var d := RowDeclaration(rows[i], p, tp);
    if d.Err? {
      assert Declared(q, p, tp) == (sent, Some(d.error));
      DeclaredStopsAtError(rows, p, tp, i + 1);
    } else if d.value.None? {
      assert sent + [] == sent;
    }
  }

  /** A row after an error changes nothing; otherwise a short row is the
      error and keeps the declarations sent, a dropped row adds no
      declaration and any other row adds exactly its own declaration at
      the end. */
  lemma DeclaredStep(rows: seq<Row>, row: Row, p: Positions, tp: seq<TagColumn>)
    ensures Declared(rows, p, tp).1.Some? ==> Declared(rows + [row], p, tp) == Declared(rows, p, tp)
    ensures var d := RowDeclaration(row, p, tp);
      var prev := Declared(rows, p, tp);
      && (prev.1.None? && d.Err? ==> Declared(rows + [row], p, tp) == (prev.0, Some(IndexError)))
      && (prev.1.None? && d == Ok(None) ==> Declared(rows + [row], p, tp) == prev)
      && (prev.1.None? && d.Ok? && d.value.Some? ==>
            Declared(rows + [row], p, tp) == (prev.0 + [d.value.value], None))
  {
    var all := rows + [row];
    assert all[..|rows|] == rows;
    RowErrorIsIndex(row, p, tp);
    assert Declared(rows, p, tp).0 + [] == Declared(rows, p, tp).0;
  }

  /** Once a leading run of rows fails, the whole run ends the same way:
      nothing more is declared. */
  lemma {:induction false} DeclaredStopsAtError(rows: seq<Row>, p: Positions, tp: seq<TagColumn>, j: nat)
    requires j <= |rows|
    requires Declared(rows[..j], p, tp).1.Some?
    ensures Declared(rows, p, tp) == Declared(rows[..j], p, tp)
    decreases |rows| - j
  {
    if j < |rows| {
      var q := rows[..j + 1];
      assert q[..j] == rows[..j];
      assert Declared(q, p, tp) == Declared(rows[..j], p, tp);
      DeclaredStopsAtError(rows, p, tp, j + 1);
    } else {
      assert rows[..j] == rows;
    }
  }

  /** A run of rows ends without error exactly when no row is short of a
      cell it reads; the only error is `IndexError`. */
  lemma {:induction false} DeclaredOkIff(rows: seq<Row>, p: Positions, tp: seq<TagColumn>)
    ensures Declared(rows, p, tp).1.None? <==> forall i :: 0 <= i < |rows| ==> RowDeclaration(rows[i], p, tp).Ok?
    ensures Declared(rows, p, tp).1.Some? ==> Declared(rows, p, tp).1.value == IndexError
    decreases |rows|
  {
    if rows != [] {
      var init := rows[..|rows| - 1];
      DeclaredOkIff(init, p, tp);
      RowErrorIsIndex(rows[|rows| - 1], p, tp);
      assert forall i :: 0 <= i < |init| ==> init[i] == rows[i];
    }
  }

  /** When row `j` is the first short row, the action ends with
      `IndexError` having sent exactly the declarations of the rows before
      it. */
  lemma SentBeforeError(rows: seq<Row>, p: Positions, tp: seq<TagColumn>, j: nat)
    requires j < |rows|
    requires forall i :: 0 <= i < j ==> RowDeclaration(rows[i], p, tp).Ok?
    requires RowDeclaration(rows[j], p, tp).Err?
    ensures Declared(rows[..j], p, tp).1.None?
    ensures Declared(rows, p, tp) == (Declared(rows[..j], p, tp).0, Some(IndexError))
  {
    var pre := rows[..j];
    assert forall i :: 0 <= i < |pre| ==> pre[i] == rows[i];
    DeclaredOkIff(pre, p, tp);
    DeclaredNext(rows, j, p, tp, Declared(pre, p, tp).0);
    RowErrorIsIndex(rows[j], p, tp);
  }

  /** Where piece `k` starts in the joined text. */
  function PieceOffset(xs: seq<string>, sep: string, k: nat): nat
    requires k < |xs|
  {
    if k == 0 then 0 else |xs[0]| + |sep| + PieceOffset(xs[1..], sep, k - 1)
  }

  /** A slice of the right operand of a concatenation. */
  lemma SliceOfAppend(a: string, b: string, i: nat, j: nat)
    requires i <= j <= |b|
    ensures (a + b)[|a| + i..|a| + j] == b[i..j]
  {
  }

  /** The left operand of a concatenation is its prefix. */
  lemma PrefixOfAppend(a: string, b: string)
    ensures (a + b)[0..|a|] == a
  {
    forall k | 0 <= k < |a| ensures (a + b)[0..|a|][k] == a[k] {
    }
  }

  /** A piece of a joined list is one contiguous part of the joined text. */
  lemma {:induction false} PieceIsSlice(xs: seq<string>, sep: string, k: nat)
    requires k < |xs|
    ensures var i := PieceOffset(xs, sep, k);
      i + |xs[k]| <= |Join(xs, sep)| && Join(xs, sep)[i..i + |xs[k]|] == xs[k]
  {
    var s := Join(xs, sep);
    if |xs| == 1 {
      assert s == xs[0];
    } else if k == 0 {
      assert s == xs[0] + (sep + Join(xs[1..], sep));
      PrefixOfAppend(xs[0], sep + Join(xs[1..], sep));
    } else {
      PieceIsSlice(xs[1..], sep, k - 1);
      var rest := Join(xs[1..], sep);
      var i := PieceOffset(xs[1..], sep, k - 1);
      assert xs[1..][k - 1] == xs[k];
      assert s == (xs[0] + sep) + rest;
      SliceOfAppend(xs[0] + sep, rest, i, i + |xs[k]|);
    }
  }

  /** No piece of a joined list contains a text the joined text lacks. */
  lemma PiecesFree(xs: seq<string>, sep: string, p: string)
    requires !Contains(Join(xs, sep), p)
    ensures forall k :: 0 <= k < |xs| ==> !Contains(xs[k], p)
  {
    forall k | 0 <= k < |xs| ensures !Contains(xs[k], p) {
      PieceIsSlice(xs, sep, k);
      var i := PieceOffset(xs, sep, k);
      NotContainsSlice(Join(xs, sep), p, i, i + |xs[k]|);
    }
  }

  /** A prefix cut from a cell without `h:localhost|` does not contain it. */
  lemma PrefixesFree(cell: string)
    requires !Contains(cell, "h:localhost|")
    ensures forall k :: 0 <= k < |Split(cell, " ")| ==> !Contains(Split(cell, " ")[k], "h:localhost|")
  {
    JoinSplit(cell, " ");
    PiecesFree(Split(cell, " "), " ", "h:localhost|");
  }

  /** Rows with a cell under every header are declared without error. */
  lemma FullRowsDeclare(rows: seq<Row>, h: Headers)
    requires RequiredPositions(h).Ok?
    requires forall i :: 0 <= i < |rows| ==> RowFits(rows[i], h)
    ensures Declared(rows, RequiredPositions(h).value, TagColumns(h)).1.None?
  {
    forall i | 0 <= i < |rows| ensures RowDeclaration(rows[i], RequiredPositions(h).value, TagColumns(h)).Ok? {
      FullRowDeclares(rows[i], h);
    }
    DeclaredOkIff(rows, RequiredPositions(h).value, TagColumns(h));
  }

  /** No declared prefix contains `h:localhost|`: rows whose prefixes cell
      has it are dropped, and a prefix is a part of that cell. */
  lemma {:induction false} DeclaredHasNoLocalhost(rows: seq<Row>, p: Positions, tp: seq<TagColumn>)
    ensures forall i, k :: 0 <= i < |Declared(rows, p, tp).0| && 0 <= k < |Declared(rows, p, tp).0[i].lrus| ==>
      !Contains(Declared(rows, p, tp).0[i].lrus[k], "h:localhost|")
    decreases |rows|
  {
    if rows != [] {
      var init := rows[..|rows| - 1];
      var row := rows[|rows| - 1];
      DeclaredHasNoLocalhost(init, p, tp);
      var prev := Declared(init, p, tp);
      var d := RowDeclaration(row, p, tp);
      if prev.1.Some? || d.Err? || d.value.None? {
        assert Declared(rows, p, tp).0 == prev.0;
      } else {
        assert Declared(rows, p, tp).0 == prev.0 + [d.value.value];
        PrefixesFree(row[p.prefixes]);
      }
    }
  }
}
