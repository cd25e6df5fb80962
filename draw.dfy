/**
 * The draw engine: one name in, one outcome out, decided in strict priority
 * order (already won, not a registered participant, nothing left, normal
 * draw). Only the normal draw changes the store: it adds one to the count of
 * the prize it picked and appends a record to the winners log.
 */
module Draw {
  import opened Text
  import opened Records
  import opened Seqs
  import Import

  /** The object `draw` returns: `{ok: false, msg}` or `{ok: true, award, isSpecial}`. */
  datatype DrawResult =
    | Rejected(msg: string)
    | Awarded(award: string, isSpecial: bool)
  {
    predicate Ok() { Awarded? }

    /** A normal draw: the only outcome that changes the store. */
    predicate Recorded() { Awarded? && !isSpecial }
  }

  /** The award handed to a name that is not on the participant list. */
  const ConsolationPrize: string := "一马当先"

  /** The message when every prize has reached its limit. */
  const ExhaustedMessage: string := "所有好运已迎完"

  /** The message for a name already in the winners log, citing the award it got. */
  function AlreadyWonMessage(name: string, award: string): (msg: string)
    ensures |msg| == |name| + |award| + 8
    ensures msg[1..1 + |name|] == name && msg[|msg| - |award|..] == award
  {
    "【" + name + "】已迎过好运：" + award
  }

  /** The two refusals can be told apart by their message alone. */
  lemma RejectionMessagesDiffer(name: string, award: string)
    ensures AlreadyWonMessage(name, award) != ExhaustedMessage
  {
    assert |ExhaustedMessage| == 7;
  }

  // ------------------------------------------------------------ queries

  /** The `find` of script.js:69: the first record for `name`, if any. */
  function FindWinner(winners: seq<WinnerRecord>, name: string): (r: Option<WinnerRecord>)
    ensures r.None? <==> forall k :: 0 <= k < |winners| ==> winners[k].name != name
    ensures r.Some? ==> r.value in winners && r.value.name == name
  {
    if |winners| == 0 then None
    else if winners[0].name == name then Some(winners[0])
    else FindWinner(winners[1..], name)
  }

  /** `find` returns the earliest matching record, not just any of them. */
  lemma {:induction false} FindWinnerIsFirst(winners: seq<WinnerRecord>, name: string, k: nat)
    requires k < |winners| && winners[k].name == name
    requires forall j :: 0 <= j < k ==> winners[j].name != name
    ensures FindWinner(winners, name) == Some(winners[k])
    decreases k
  {
    if k > 0 {
      FindWinnerIsFirst(winners[1..], name, k - 1);
    }
  }

  /** Appending to the log never changes what `find` returns for a name already there. */
  lemma {:induction false} FindWinnerAppend(winners: seq<WinnerRecord>, w: WinnerRecord, name: string)
    requires FindWinner(winners, name).Some?
    ensures FindWinner(winners + [w], name) == FindWinner(winners, name)
    decreases |winners|
  {
    var ws := winners + [w];
    assert ws[0] == winners[0];
    if winners[0].name != name {
      assert ws[1..] == winners[1..] + [w];
      FindWinnerAppend(winners[1..], w, name);
    }
  }

  /** The condition of the `filter` at script.js:78: the prize has a slot left. */
  predicate HasRoom(p: Prize)
  {
    p.count < p.limit
  }

  /** The `filter` of script.js:78: the prizes with a slot left, in list order. */
  function Available(awards: seq<Prize>): (r: seq<Prize>)
    ensures |r| <= |awards|
    ensures forall p :: p in r <==> p in awards && p.count < p.limit
  {
    FilterMembersAll(awards, HasRoom);
    Filter(awards, HasRoom)
  }

  /** The index computed at script.js:82 from `rand` in [0, 1): one of `n` choices. */
  function PickIndex(rand: real, n: nat): (i: nat)
    requires 0.0 <= rand < 1.0 && n > 0
    ensures i < n
  {
    assert 0.0 <= rand * (n as real) < n as real;
    (rand * (n as real)).Floor
  }

  /**
   * Each of the `n` choices is picked for a sub-interval of [0, 1) of width
   * `1 / n`: the pick is uniform when `rand` is.
   */
  lemma PickIndexInterval(rand: real, n: nat, i: nat)
    requires 0.0 <= rand < 1.0 && i < n
    ensures PickIndex(rand, n) == i <==>
              (i as real) / (n as real) <= rand < ((i + 1) as real) / (n as real)
  {
    var size := n as real;
    FloorIs(rand * size, i);
    ScaledBelow(i as real, rand, size);
    ScaledBelow((i + 1) as real, rand, size);
  }

  lemma FloorIs(x: real, i: int)
    ensures x.Floor == i <==> (i as real) <= x < ((i + 1) as real)
  {
  }

  /** Comparing `rand * size` with `k` is comparing `rand` with `k / size`. */
  lemma ScaledBelow(k: real, rand: real, size: real)
    requires size > 0.0
    ensures k <= rand * size <==> k / size <= rand
    ensures rand * size < k <==> rand < k / size
  {
    var q := k / size;
    assert q * size == k;
    if q <= rand {
      assert q * size <= rand * size;
    }
    if rand < q {
      assert rand * size < q * size;
    }
  }

  /**
   * The in-place `map` of script.js:86-89: every prize called `name` gains
   * one, every other prize is left alone.
   */
  function Bump(awards: seq<Prize>, name: string): (r: seq<Prize>)
    ensures |r| == |awards|
    ensures forall k :: 0 <= k < |r| && awards[k].name == name ==>
              r[k].name == name && r[k].limit == awards[k].limit && r[k].count == awards[k].count + 1
    ensures forall k :: 0 <= k < |r| && awards[k].name != name ==> r[k] == awards[k]
    ensures SameShape(awards, r)
  {
    if |awards| == 0 then []
    else
      var p := awards[0];
      [if p.name == name then p.(count := p.count + 1) else p] + Bump(awards[1..], name)
  }

  // --------------------------------------------------------- invariants

  /** The same prizes in the same order, with the same limits; only counts may differ. */
  predicate SameShape(before: seq<Prize>, after: seq<Prize>)
  {
    && |after| == |before|
    && forall k :: 0 <= k < |after| ==> after[k].name == before[k].name && after[k].limit == before[k].limit
  }

  /** Every prize has handed out between none and all of its limit. */
  predicate WithinLimits(awards: seq<Prize>)
  {
    forall k :: 0 <= k < |awards| ==> 0 <= awards[k].count <= awards[k].limit
  }

  /** No two prizes share a name (the importer does not enforce this). */
  predicate UniqueNames(awards: seq<Prize>)
  {
    forall i, j :: 0 <= i < j < |awards| ==> awards[i].name != awards[j].name
  }

  /** The winners log holds at most one record per name. */
  predicate DistinctWinners(winners: seq<WinnerRecord>)
  {
    forall i, j :: 0 <= i < j < |winners| ==> winners[i].name != winners[j].name
  }

  /** Every name in the winners log is on the participant list. */
  predicate WinnersRegistered(users: seq<string>, winners: seq<WinnerRecord>)
  {
    forall k :: 0 <= k < |winners| ==> winners[k].name in users
  }

  /** How many records of the winners log carry `award`. */
  function CountAward(winners: seq<WinnerRecord>, award: string): (n: nat)
    ensures n <= |winners|
    ensures n == 0 <==> forall k :: 0 <= k < |winners| ==> winners[k].award != award
  {
    if |winners| == 0 then 0
    else (if winners[|winners| - 1].award == award then 1 else 0) + CountAward(winners[..|winners| - 1], award)
  }

  /** Each prize's count is the number of log records that name it. */
  predicate Ledger(awards: seq<Prize>, winners: seq<WinnerRecord>)
  {
    forall k :: 0 <= k < |awards| ==> awards[k].count == CountAward(winners, awards[k].name)
  }

  /** A store just filled by the importers (empty log, every count 0) satisfies the ledger. */
  lemma LedgerOfFreshImport(table: Import.Table, parse: string -> Option<int>)
    ensures Ledger(Import.ImportAwards(table, parse), [])
  {
  }

  /** Bumping an eligible prize keeps every count within its limit, given unique names. */
  lemma BumpWithinLimits(awards: seq<Prize>, win: Prize)
    requires WithinLimits(awards) && UniqueNames(awards)
    requires win in awards && win.count < win.limit
    ensures WithinLimits(Bump(awards, win.name))
  {
    var j :| 0 <= j < |awards| && awards[j] == win;
    var r := Bump(awards, win.name);
    forall k | 0 <= k < |r| ensures 0 <= r[k].count <= r[k].limit {
      if awards[k].name == win.name {
        assert k == j;
      }
    }
  }

  /**
   * Why unique names matter: with two prizes called "Gold" the only eligible
   * one is picked, both are bumped, and the full one goes past its limit.
   */
  lemma DuplicateNamesBreakLimits()
    ensures var awards := [Prize("Gold", 1, 1), Prize("Gold", 2, 1)];
            WithinLimits(awards) && Available(awards) == [awards[1]]
            && !WithinLimits(Bump(awards, "Gold"))
  {
    var awards := [Prize("Gold", 1, 1), Prize("Gold", 2, 1)];
    assert Available(awards[1..]) == [awards[1]];
    assert Bump(awards, "Gold")[0].count == 2;
  }

  lemma CountAwardAppend(winners: seq<WinnerRecord>, w: WinnerRecord, award: string)
    ensures CountAward(winners + [w], award) == CountAward(winners, award) + (if w.award == award then 1 else 0)
  {
    assert (winners + [w])[..|winners|] == winners;
  }

  /** Recording a win in the log and bumping that award together keep the ledger. */
  lemma BumpKeepsLedger(awards: seq<Prize>, winners: seq<WinnerRecord>, w: WinnerRecord)
    requires Ledger(awards, winners)
    ensures Ledger(Bump(awards, w.award), winners + [w])
  {
    forall k | 0 <= k < |awards| {
      CountAwardAppend(winners, w, awards[k].name);
    }
  }

  /** The slots prize `p` still has to give. */
  function Headroom(p: Prize): nat
  {
    if p.count < p.limit then p.limit - p.count else 0
  }

  /** The number of normal draws the prize list can still serve. */
  function Capacity(awards: seq<Prize>): nat
  {
    if |awards| == 0 then 0 else Headroom(awards[0]) + Capacity(awards[1..])
  }

  /** The draw finds nothing to pick exactly when no slot is left. */
  lemma {:induction false} CapacityZeroIffExhausted(awards: seq<Prize>)
    ensures Capacity(awards) == 0 <==> Available(awards) == []
  {
    if |awards| > 0 {
      CapacityZeroIffExhausted(awards[1..]);
      assert awards[0] in awards;
      if Available(awards[1..]) != [] {
        assert Available(awards[1..])[0] in awards[1..];
      }
    }
  }

  lemma {:induction false} BumpAbsent(awards: seq<Prize>, name: string)
    requires forall k :: 0 <= k < |awards| ==> awards[k].name != name
    ensures Bump(awards, name) == awards
  {
  }

  /** With unique names, bumping an eligible prize uses up exactly one slot. */
  lemma {:induction false} BumpTakesOneSlot(awards: seq<Prize>, j: nat)
    requires UniqueNames(awards)
    requires j < |awards| && awards[j].count < awards[j].limit
    ensures Capacity(Bump(awards, awards[j].name)) == Capacity(awards) - 1
    decreases j
  {
    var name := awards[j].name;
    var rest := awards[1..];
    assert Bump(awards, name)[1..] == Bump(rest, name);
    if j == 0 {
      forall k | 0 <= k < |rest| ensures rest[k].name != name {
        assert rest[k] == awards[k + 1];
      }
      BumpAbsent(rest, name);
    } else {
      assert awards[0].name != name;
      assert rest[j - 1] == awards[j];
      assert UniqueNames(rest) by {
        forall a, b | 0 <= a < b < |rest| ensures rest[a].name != rest[b].name {
          assert rest[a] == awards[a + 1] && rest[b] == awards[b + 1];
        }
      }
      BumpTakesOneSlot(rest, j - 1);
    }
  }

  /** Names never change under a bump, so neither does their uniqueness. */
  lemma SameShapeKeepsUniqueNames(before: seq<Prize>, after: seq<Prize>)
    requires SameShape(before, after) && UniqueNames(before)
    ensures UniqueNames(after)
  {
    forall i, j | 0 <= i < j < |after| ensures after[i].name != after[j].name {
      assert after[i].name == before[i].name && after[j].name == before[j].name;
    }
  }

  /** The record appended for a name the log does not hold yet. */
  lemma AppendNewWinner(users: seq<string>, winners: seq<WinnerRecord>, w: WinnerRecord)
    requires w.name in users && FindWinner(winners, w.name).None?
    ensures DistinctWinners(winners) ==> DistinctWinners(winners + [w])
    ensures WinnersRegistered(users, winners) ==> WinnersRegistered(users, winners + [w])
    ensures FindWinner(winners + [w], w.name) == Some(w)
  {
    var ws := winners + [w];
    assert forall k :: 0 <= k < |winners| ==> ws[k] == winners[k];
    FindWinnerIsFirst(ws, w.name, |winners|);
  }

  /** What bumping an eligible prize keeps, for the prize invariants above. */
  lemma BumpKeepsInvariants(awards: seq<Prize>, winners: seq<WinnerRecord>, win: Prize, w: WinnerRecord)
    requires win in awards && win.count < win.limit && w.award == win.name
    ensures WithinLimits(awards) && UniqueNames(awards) ==> WithinLimits(Bump(awards, win.name))
    ensures UniqueNames(awards) ==> UniqueNames(Bump(awards, win.name))
    ensures UniqueNames(awards) ==> Capacity(Bump(awards, win.name)) == Capacity(awards) - 1
    ensures Ledger(awards, winners) ==> Ledger(Bump(awards, win.name), winners + [w])
  {
    if WithinLimits(awards) && UniqueNames(awards) {
      BumpWithinLimits(awards, win);
    }
    if UniqueNames(awards) {
      SameShapeKeepsUniqueNames(awards, Bump(awards, win.name));
      var j :| 0 <= j < |awards| && awards[j] == win;
      BumpTakesOneSlot(awards, j);
    }
    if Ledger(awards, winners) {
      BumpKeepsLedger(awards, winners, w);
    }
  }

  // --------------------------------------------------------------- store

  /** The three storage keys `raffle_users`, `raffle_awards` and `raffle_winners`. */
  class Raffle {
    var users: seq<string>
    var awards: seq<Prize>
    var winners: seq<WinnerRecord>

    /** Empty storage: every key reads as the empty list. */
    constructor ()
      ensures users == [] && awards == [] && winners == []
    {
      users, awards, winners := [], [], [];
    }

    /** `importUsers`: replaces the participant list with the transformed sheet. */
    method ImportUsers(table: Import.Table)
      modifies this
      ensures users == Import.ImportUsers(table)
      ensures awards == old(awards) && winners == old(winners)
    {
      users := Import.ImportUsers(table);
    }

    /** `importAwards`: replaces the prize list with the transformed sheet. */
    method ImportAwards(table: Import.Table, parse: string -> Option<int>)
      modifies this
      ensures awards == Import.ImportAwards(table, parse)
      ensures users == old(users) && winners == old(winners)
    {
      awards := Import.ImportAwards(table, parse);
    }

    /**
     * `draw(name)`. `rand` is the value `Math.random()` returned and `time`
     * the timestamp text the record gets.
     */
    method Draw(name: string, rand: real, time: string) returns (res: DrawResult)
      requires 0.0 <= rand < 1.0
      modifies this
      // 1. already won: rejected with the award on record, nothing changes
      ensures var n := Trim(name); var found := FindWinner(old(winners), n);
              found.Some? ==>
                res == Rejected(AlreadyWonMessage(n, found.value.award))
                && users == old(users) && awards == old(awards) && winners == old(winners)
      // 2. not on the list: the consolation prize, nothing recorded
      ensures var n := Trim(name);
              FindWinner(old(winners), n).None? && n !in old(users) ==>
                res == Awarded(ConsolationPrize, true)
                && users == old(users) && awards == old(awards) && winners == old(winners)
      // 3. every prize is used up: rejected, nothing changes
      ensures var n := Trim(name);
              FindWinner(old(winners), n).None? && n in old(users) && Available(old(awards)) == [] ==>
                res == Rejected(ExhaustedMessage)
                && users == old(users) && awards == old(awards) && winners == old(winners)
      // 4. a normal draw: an eligible prize picked by rand, bumped and logged
      ensures var n := Trim(name); var avail := Available(old(awards));
              FindWinner(old(winners), n).None? && n in old(users) && avail != [] ==>
                var win := avail[PickIndex(rand, |avail|)];
                win in old(awards) && win.count < win.limit
                && res == Awarded(win.name, false)
                && users == old(users)
                && awards == Bump(old(awards), win.name)
                && winners == old(winners) + [WinnerRecord(n, win.name, time)]
      // what every draw keeps
      ensures SameShape(old(awards), awards)
      ensures old(WithinLimits(awards) && UniqueNames(awards)) ==> WithinLimits(awards)
      ensures old(UniqueNames(awards)) ==> UniqueNames(awards)
      ensures old(DistinctWinners(winners)) ==> DistinctWinners(winners)
      ensures old(WinnersRegistered(users, winners)) ==> WinnersRegistered(users, winners)
      ensures old(Ledger(awards, winners)) ==> Ledger(awards, winners)
      ensures old(UniqueNames(awards)) && res.Recorded() ==> Capacity(awards) == old(Capacity(awards)) - 1
      // after a recorded win the same name is always rejected as already won
      ensures res.Recorded() ==> FindWinner(winners, Trim(name)).Some?
    {
      var n := Trim(name);
      var already := FindWinner(winners, n);
      if already.Some? {
        return Rejected(AlreadyWonMessage(n, already.value.award));
      }
      if n !in users {
        return Awarded(ConsolationPrize, true);
      }
      var available := Available(awards);
      if |available| == 0 {
        return Rejected(ExhaustedMessage);
      }
      var win := available[PickIndex(rand, |available|)];
      Award(n, win, time);
      res := Awarded(win.name, false);
    }

    /**
     * The bookkeeping of a normal draw: every prize called `win.name` gains
     * one, and the winners log gains one record for `n` at its end.
     */
    method Award(n: string, win: Prize, time: string)
      requires n in users && FindWinner(winners, n).None?
      requires win in awards && win.count < win.limit
      modifies this
      ensures users == old(users)
      ensures awards == Bump(old(awards), win.name) && SameShape(old(awards), awards)
      ensures winners == old(winners) + [WinnerRecord(n, win.name, time)]
      ensures old(WithinLimits(awards) && UniqueNames(awards)) ==> WithinLimits(awards)
      ensures old(UniqueNames(awards)) ==> UniqueNames(awards)
      ensures old(UniqueNames(awards)) ==> Capacity(awards) == old(Capacity(awards)) - 1
      ensures old(DistinctWinners(winners)) ==> DistinctWinners(winners)
      ensures old(WinnersRegistered(users, winners)) ==> WinnersRegistered(users, winners)
      ensures old(Ledger(awards, winners)) ==> Ledger(awards, winners)
      ensures FindWinner(winners, n).Some?
    {
      var record := WinnerRecord(n, win.name, time);
      BumpKeepsInvariants(awards, winners, win, record);
      AppendNewWinner(users, winners, record);
      awards := Bump(awards, win.name);
      winners := winners + [record];
    }
  }
}
