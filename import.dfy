/**
 * The row transforms of the two spreadsheet importers. The spreadsheet has
 * already been read into a row-major table of cell texts; the first row is a
 * header. Each importer maps the remaining rows to candidate entries and
 * then filters them.
 */
module Import {
  import opened Text
  import opened Records
  import opened Seqs

  type Row = seq<string>
  type Table = seq<Row>

  /** A cell read as at script.js:41 and 52: one beyond the end of a short row reads as the empty string. */
  function Cell(r: Row, i: nat): string
  {
    if i < |r| then r[i] else ""
  }

  /** The `slice` of script.js:41 and 51: every row but the header; nothing for an empty table. */
  function Body(table: Table): (rows: Table)
    ensures |table| > 0 ==> [table[0]] + rows == table
    ensures |table| == 0 ==> rows == []
  {
    if |table| == 0 then [] else table[1..]
  }

  // ---------------------------------------------------------------- users

  /** The participant name a row contributes before filtering: its trimmed first cell. */
  function UserOfRow(r: Row): (u: string)
    ensures |u| <= |Cell(r, 0)| && IsTrimmed(u)
  {
    Trim(Cell(r, 0))
  }

  /** The `map` of script.js:41: each row's trimmed first cell, in row order. */
  function UserNames(rows: Table): (names: seq<string>)
    ensures |names| == |rows|
    ensures forall k :: 0 <= k < |names| ==> IsTrimmed(names[k])
  {
    seq(|rows|, k requires 0 <= k < |rows| => UserOfRow(rows[k]))
  }

  /** `Boolean` on a string: it is not empty. */
  predicate IsName(u: string)
  {
    u != []
  }

  /** The `map` of script.js:41 followed by its `filter`, which drops the empty names. */
  function UserRows(rows: Table): (users: seq<string>)
    ensures |users| <= |rows|
    ensures forall k :: 0 <= k < |users| ==> users[k] != [] && IsTrimmed(users[k])
  {
    Filter(UserNames(rows), IsName)
  }

  /**
   * The participant list `importUsers` stores for a parsed sheet: the header
   * row never contributes a name, and every name is non-empty and trimmed.
   */
  function ImportUsers(table: Table): (users: seq<string>)
    ensures |table| <= 1 ==> users == []
    ensures |table| > 0 ==> |users| < |table|
    ensures forall k :: 0 <= k < |users| ==> users[k] != [] && IsTrimmed(users[k])
  {
    UserRows(Body(table))
  }

  /** A name is imported exactly when it is the non-empty trimmed first cell of a row after the header. */
  lemma ImportUsersMembers(table: Table, u: string)
    ensures u in ImportUsers(table) <==>
              u != [] && exists i :: 1 <= i < |table| && UserOfRow(table[i]) == u
  {
    var rows := Body(table);
    UserRowsMembers(rows, u);
    if exists i :: 1 <= i < |table| && UserOfRow(table[i]) == u {
      var i :| 1 <= i < |table| && UserOfRow(table[i]) == u;
      assert rows[i - 1] == table[i];
    }
    if exists i :: 0 <= i < |rows| && UserOfRow(rows[i]) == u {
      var i :| 0 <= i < |rows| && UserOfRow(rows[i]) == u;
      assert rows[i] == table[i + 1];
    }
  }

  /** The transform keeps the order of rows: it distributes over concatenation. */
  lemma UserRowsAppend(a: Table, b: Table)
    ensures UserRows(a + b) == UserRows(a) + UserRows(b)
  {
    forall k | 0 <= k < |a| + |b| ensures UserNames(a + b)[k] == (UserNames(a) + UserNames(b))[k] {
      if k < |a| {
        assert (a + b)[k] == a[k];
      } else {
        assert (a + b)[k] == b[k - |a|];
      }
    }
    assert UserNames(a + b) == UserNames(a) + UserNames(b);
    FilterAppend(UserNames(a), UserNames(b), IsName);
  }

  /** A name is imported exactly when it is the non-empty trimmed first cell of some row. */
  lemma UserRowsMembers(rows: Table, u: string)
    ensures u in UserRows(rows) <==> u != [] && exists i :: 0 <= i < |rows| && UserOfRow(rows[i]) == u
  {
    FilterMembers(UserNames(rows), IsName, u);
    if exists i :: 0 <= i < |rows| && UserOfRow(rows[i]) == u {
      var i :| 0 <= i < |rows| && UserOfRow(rows[i]) == u;
      assert UserNames(rows)[i] == u;
    }
  }

  /** One column of names under a header row, as a sheet holding a participant list. */
  function UserSheet(header: Row, users: seq<string>): (t: Table)
    ensures |t| == |users| + 1 && t[0] == header
    ensures forall k :: 0 <= k < |users| ==> t[k + 1] == [users[k]]
  {
    [header] + seq(|users|, k requires 0 <= k < |users| => [users[k]])
  }

  /** Re-importing a stored participant list (non-empty trimmed names) gives it back. */
  lemma ImportUsersRoundTrip(header: Row, users: seq<string>)
    requires forall k :: 0 <= k < |users| ==> users[k] != [] && IsTrimmed(users[k])
    ensures ImportUsers(UserSheet(header, users)) == users
  {
    var rows := Body(UserSheet(header, users));
    forall k | 0 <= k < |users| ensures UserNames(rows)[k] == users[k] {
      assert rows[k] == [users[k]];
      TrimOfTrimmed(users[k]);
    }
    assert UserNames(rows) == users;
    FilterAll(users, IsName);
  }

  /**
   * A sheet holding a name, a blank cell and a name padded with spaces imports
   * as the two names: the blank row is dropped and the padding trimmed.
   */
  lemma ImportUsersBlankAndPadded(header: Row, a: string, b: string)
    requires a != [] && IsTrimmed(a) && b != [] && IsTrimmed(b)
    ensures ImportUsers([header, [a], [""], [[' '] + b + [' ']]]) == [a, b]
  {
    var rows: Table := [[a], [""], [[' '] + b + [' ']]];
    assert Body([header, [a], [""], [[' '] + b + [' ']]]) == rows;
    TrimOfTrimmed(a);
    TrimOfTrimmed("");
    TrimPadded(b);
    assert UserNames(rows) == [a, ""] + [b];
    FilterAppend([a, ""], [b], IsName);
    FilterAppend([a], [""], IsName);
  }

  /** The sheet `["Header"], ["Alice"], [""], [" Bob "]` imports as `["Alice", "Bob"]`. */
  lemma ImportUsersExample()
    ensures ImportUsers([["Header"], ["Alice"], [""], [" Bob "]]) == ["Alice", "Bob"]
  {
    assert " Bob " == [' '] + "Bob" + [' '];
    ImportUsersBlankAndPadded(["Header"], "Alice", "Bob");
  }

  // --------------------------------------------------------------- prizes

  /**
   * The limit of script.js:53 from a parse result: a failed parse (NaN) gives 0, so the
   * limit passes the `> 0` test exactly when the cell read as a positive number.
   */
  function LimitOf(n: Option<int>): (limit: int)
    ensures n.None? ==> limit == 0
    ensures n.Some? ==> limit == n.value
    ensures limit > 0 <==> n.Some? && n.value > 0
  {
    match n
    case None => 0
    case Some(v) => v
  }

  /**
   * The number read from a row's limit cell at script.js:53; `parse` stands for
   * `Number`. A missing cell is `undefined`, which `Number` reads as NaN.
   */
  function LimitCell(r: Row, parse: string -> Option<int>): Option<int>
  {
    if 1 < |r| then parse(r[1]) else None
  }

  /** The prize a row describes before filtering. */
  function PrizeOfRow(r: Row, parse: string -> Option<int>): (p: Prize)
    ensures IsTrimmed(p.name) && p.count == 0
    ensures |r| <= 1 ==> p.limit == 0
    ensures p.limit > 0 <==> LimitCell(r, parse).Some? && LimitCell(r, parse).value > 0
  {
    Prize(Trim(Cell(r, 0)), LimitOf(LimitCell(r, parse)), 0)
  }

  /** The `map` of script.js:51-54: one fresh prize per row, in row order. */
  function PrizesOfRows(rows: Table, parse: string -> Option<int>): (prizes: seq<Prize>)
    ensures |prizes| == |rows|
    ensures forall k :: 0 <= k < |prizes| ==> IsTrimmed(prizes[k].name) && prizes[k].count == 0
  {
    seq(|rows|, k requires 0 <= k < |rows| => PrizeOfRow(rows[k], parse))
  }

  /** The condition of the `filter` at script.js:55: a non-empty name and a positive limit. */
  predicate Keep(p: Prize)
  {
    p.name != [] && p.limit > 0
  }

  /** The `map` of script.js:51-54 followed by the `filter` of script.js:55. */
  function PrizeRows(rows: Table, parse: string -> Option<int>): (awards: seq<Prize>)
    ensures |awards| <= |rows|
    ensures forall k :: 0 <= k < |awards| ==>
              awards[k].name != [] && IsTrimmed(awards[k].name)
              && awards[k].limit > 0 && awards[k].count == 0
  {
    Filter(PrizesOfRows(rows, parse), Keep)
  }

  /**
   * The prize list `importAwards` stores for a parsed sheet: the header row
   * never contributes a prize, and every prize is fresh with a positive limit.
   */
  function ImportAwards(table: Table, parse: string -> Option<int>): (awards: seq<Prize>)
    ensures |table| <= 1 ==> awards == []
    ensures |table| > 0 ==> |awards| < |table|
    ensures forall k :: 0 <= k < |awards| ==>
              awards[k].name != [] && IsTrimmed(awards[k].name)
              && awards[k].limit > 0 && awards[k].count == 0
  {
    PrizeRows(Body(table), parse)
  }

  /** A row whose limit cell reads as not a number, zero or negative is not imported. */
  lemma PrizeRowDropped(r: Row, parse: string -> Option<int>)
    requires LimitCell(r, parse).None? || LimitCell(r, parse).value <= 0
    ensures PrizeRows([r], parse) == []
  {
    PrizeRowsSingle(r, parse);
  }

  /** A row with no limit cell is never imported, whatever `parse` does. */
  lemma PrizeRowMissingLimit(r: Row, parse: string -> Option<int>)
    requires |r| <= 1
    ensures PrizeRows([r], parse) == []
  {
    PrizeRowsSingle(r, parse);
  }

  /** A row with a non-empty name and a limit cell reading as a positive number is imported as a fresh prize. */
  lemma PrizeRowKept(r: Row, parse: string -> Option<int>, n: int)
    requires Trim(Cell(r, 0)) != [] && 1 < |r| && parse(r[1]) == Some(n) && n > 0
    ensures PrizeRows([r], parse) == [Prize(Trim(Cell(r, 0)), n, 0)]
  {
    PrizeRowsSingle(r, parse);
  }

  /** What a one-row table contributes: its prize when it passes the filter, else nothing. */
  lemma PrizeRowsSingle(r: Row, parse: string -> Option<int>)
    ensures PrizeRows([r], parse) == (if Keep(PrizeOfRow(r, parse)) then [PrizeOfRow(r, parse)] else [])
  {
    assert PrizesOfRows([r], parse) == [PrizeOfRow(r, parse)];
    assert [PrizeOfRow(r, parse)][1..] == [];
  }

  /** The transform keeps the order of rows: it distributes over concatenation. */
  lemma PrizeRowsAppend(a: Table, b: Table, parse: string -> Option<int>)
    ensures PrizeRows(a + b, parse) == PrizeRows(a, parse) + PrizeRows(b, parse)
  {
    var pa, pb := PrizesOfRows(a, parse), PrizesOfRows(b, parse);
    forall k | 0 <= k < |a| + |b| ensures PrizesOfRows(a + b, parse)[k] == (pa + pb)[k] {
      if k < |a| {
        assert (a + b)[k] == a[k];
      } else {
        assert (a + b)[k] == b[k - |a|];
      }
    }
    assert PrizesOfRows(a + b, parse) == pa + pb;
    FilterAppend(PrizesOfRows(a, parse), PrizesOfRows(b, parse), Keep);
  }

  /** A prize is imported exactly when some row describes it and it passes the filter. */
  lemma PrizeRowsMembers(rows: Table, parse: string -> Option<int>, p: Prize)
    ensures p in PrizeRows(rows, parse) <==>
              Keep(p) && exists i :: 0 <= i < |rows| && PrizeOfRow(rows[i], parse) == p
  {
    FilterMembers(PrizesOfRows(rows, parse), Keep, p);
    if exists i :: 0 <= i < |rows| && PrizeOfRow(rows[i], parse) == p {
      var i :| 0 <= i < |rows| && PrizeOfRow(rows[i], parse) == p;
      assert PrizesOfRows(rows, parse)[i] == p;
    }
  }

  /** Two columns (name, limit rendered by `show`) under a header row. */
  function PrizeSheet(header: Row, awards: seq<Prize>, show: int -> string): (t: Table)
    ensures |t| == |awards| + 1 && t[0] == header
    ensures forall k :: 0 <= k < |awards| ==> t[k + 1] == [awards[k].name, show(awards[k].limit)]
  {
    [header] + seq(|awards|, k requires 0 <= k < |awards| => [awards[k].name, show(awards[k].limit)])
  }

  /**
   * Re-importing a prize list whose entries are fresh (non-empty trimmed names,
   * positive limits, nothing handed out) gives it back, when `parse` reads back
   * what `show` writes.
   */
  lemma ImportAwardsRoundTrip(header: Row, awards: seq<Prize>,
                              show: int -> string, parse: string -> Option<int>)
    requires forall n :: n > 0 ==> parse(show(n)) == Some(n)
    requires forall k :: 0 <= k < |awards| ==>
               awards[k].name != [] && IsTrimmed(awards[k].name)
               && awards[k].limit > 0 && awards[k].count == 0
    ensures ImportAwards(PrizeSheet(header, awards, show), parse) == awards
  {
    var rows := Body(PrizeSheet(header, awards, show));
    forall k | 0 <= k < |awards| ensures PrizesOfRows(rows, parse)[k] == awards[k] {
      assert rows[k] == [awards[k].name, show(awards[k].limit)];
      TrimOfTrimmed(awards[k].name);
    }
    assert PrizesOfRows(rows, parse) == awards;
    FilterAll(awards, Keep);
  }

  /** Three two-cell rows with trimmed names map to the prizes they spell out. */
  lemma PrizesOfTrimmedRows(g: string, cg: string, b: string, cb: string,
                            s: string, cs: string, parse: string -> Option<int>)
    requires IsTrimmed(g) && IsTrimmed(b) && IsTrimmed(s)
    ensures PrizesOfRows([[g, cg], [b, cb], [s, cs]], parse)
            == [Prize(g, LimitOf(parse(cg)), 0), Prize(b, LimitOf(parse(cb)), 0)]
               + [Prize(s, LimitOf(parse(cs)), 0)]
  {
    TrimOfTrimmed(g);
    TrimOfTrimmed(b);
    TrimOfTrimmed(s);
  }

  /**
   * Of three rows with trimmed names, only the one whose limit cell reads as a
   * positive number is imported; the others, whose limit reads as zero, a
   * negative number or not a number, are dropped.
   */
  lemma ImportAwardsDropsNonPositive(header: Row, g: string, cg: string, b: string, cb: string,
                                     s: string, cs: string, parse: string -> Option<int>)
    requires g != [] && IsTrimmed(g) && IsTrimmed(b) && IsTrimmed(s)
    requires LimitOf(parse(cg)) > 0 && LimitOf(parse(cb)) <= 0 && LimitOf(parse(cs)) <= 0
    ensures ImportAwards([header, [g, cg], [b, cb], [s, cs]], parse) == [Prize(g, LimitOf(parse(cg)), 0)]
  {
    assert Body([header, [g, cg], [b, cb], [s, cs]]) == [[g, cg], [b, cb], [s, cs]];
    PrizesOfTrimmedRows(g, cg, b, cb, s, cs, parse);
    var gold, bad, silver := Prize(g, LimitOf(parse(cg)), 0), Prize(b, LimitOf(parse(cb)), 0),
                             Prize(s, LimitOf(parse(cs)), 0);
    FilterAppend([gold, bad], [silver], Keep);
    FilterAppend([gold], [bad], Keep);
  }

  /**
   * The sheet `["Header"], ["Gold", "2"], ["Bad", "0"], ["Silver", "x"]` imports
   * as the single prize Gold with limit 2: a zero and a non-numeric limit are dropped.
   */
  lemma ImportAwardsExample(parse: string -> Option<int>)
    requires parse("2") == Some(2) && parse("0") == Some(0) && parse("x") == None
    ensures ImportAwards([["Header"], ["Gold", "2"], ["Bad", "0"], ["Silver", "x"]], parse)
            == [Prize("Gold", 2, 0)]
  {
    ImportAwardsDropsNonPositive(["Header"], "Gold", "2", "Bad", "0", "Silver", "x", parse);
  }
}
