/**
 * Short sessions against a fresh store, each showing one behaviour of the
 * draw engine over several calls, for every value the random source may give.
 */
module Scenarios {
  import opened Text
  import opened Records
  import opened Draw

  /**
   * A name missing from the participant list gets the consolation prize on
   * every call, and the winners log stays empty.
   */
  method UnregisteredAlwaysConsoled(r1: real, r2: real)
    returns (first: DrawResult, second: DrawResult, logged: nat)
    requires 0.0 <= r1 < 1.0 && 0.0 <= r2 < 1.0
    ensures first == second == Awarded(ConsolationPrize, true)
    ensures logged == 0
  {
    var raffle := new Raffle();
    raffle.users := ["Ann"];
    raffle.awards := [Prize("Gold", 3, 0)];
    TrimOfTrimmed("Zoe");
    first := raffle.Draw("Zoe", r1, "t1");
    second := raffle.Draw("Zoe", r2, "t2");
    logged := |raffle.winners|;
  }

  /**
   * A participant who has won is turned away on the next call, with the
   * message naming the prize already won, even when the name comes back
   * padded with spaces.
   */
  method SecondDrawRejected(name: string, prize: string, t1: string, t2: string, r1: real, r2: real)
    returns (first: DrawResult, second: DrawResult)
    requires IsTrimmed(name)
    requires 0.0 <= r1 < 1.0 && 0.0 <= r2 < 1.0
    ensures first == Awarded(prize, false)
    ensures second == Rejected(AlreadyWonMessage(name, prize))
  {
    var raffle := new Raffle();
    raffle.users := [name];
    raffle.awards := [Prize(prize, 3, 0)];
    TrimOfTrimmed(name);
    TrimPadded(name);
    ghost var only := raffle.awards;
    assert Available(only) == only by {
      assert Available(only[1..]) == [];
    }
    first := raffle.Draw(name, r1, t1);
    assert PickIndex(r1, 1) == 0;
    assert raffle.winners == [WinnerRecord(name, prize, t1)];
    second := raffle.Draw([' '] + name + [' '], r2, t2);
  }

  /**
   * Once a name is in the winners log, every later draw, of any name, keeps
   * its record where `find` sees it, and a draw of that name is turned away
   * citing the prize it won.
   */
  method WinnerStaysRejected(raffle: Raffle, known: string, name: string, rand: real, time: string)
    returns (res: DrawResult)
    requires 0.0 <= rand < 1.0
    requires FindWinner(raffle.winners, known).Some?
    modifies raffle
    ensures FindWinner(raffle.winners, known) == old(FindWinner(raffle.winners, known))
    ensures Trim(name) == known ==>
              res == Rejected(AlreadyWonMessage(known, old(FindWinner(raffle.winners, known)).value.award))
  {
    ghost var before := raffle.winners;
    res := raffle.Draw(name, rand, time);
    if raffle.winners != before {
      var record := raffle.winners[|before|];
      assert raffle.winners == before + [record];
      FindWinnerAppend(before, record, known);
    }
  }

  /**
   * A draw of a registered name with no win yet, while a slot is left: it is
   * a recorded win that takes one slot and logs the name.
   */
  method DrawRegistered(raffle: Raffle, name: string, rand: real, time: string) returns (res: DrawResult)
    requires 0.0 <= rand < 1.0 && IsTrimmed(name)
    requires name in raffle.users && FindWinner(raffle.winners, name).None?
    requires UniqueNames(raffle.awards) && Capacity(raffle.awards) > 0
    modifies raffle
    ensures res.Recorded() && raffle.users == old(raffle.users)
    ensures UniqueNames(raffle.awards) && Capacity(raffle.awards) == old(Capacity(raffle.awards)) - 1
    ensures raffle.winners == old(raffle.winners) + [WinnerRecord(name, res.award, time)]
  {
    TrimOfTrimmed(name);
    CapacityZeroIffExhausted(raffle.awards);
    res := raffle.Draw(name, rand, time);
  }

  /**
   * Two prizes of one slot each serve exactly two participants: both are
   * awarded, and a third participant finds every prize used up.
   */
  method ExhaustTwoSingleSlots(a: string, b: string, c: string, g: string, h: string,
                               r1: real, r2: real, r3: real, t: string)
    returns (first: DrawResult, second: DrawResult, third: DrawResult)
    requires IsTrimmed(a) && IsTrimmed(b) && IsTrimmed(c)
    requires a != b && a != c && b != c && g != h
    requires 0.0 <= r1 < 1.0 && 0.0 <= r2 < 1.0 && 0.0 <= r3 < 1.0
    ensures first.Recorded() && second.Recorded()
    ensures third == Rejected(ExhaustedMessage)
  {
    var raffle := new Raffle();
    raffle.users := [a, b, c];
    raffle.awards := [Prize(g, 1, 0), Prize(h, 1, 0)];
    ghost var slots := raffle.awards;
    assert Capacity(slots) == 2 by {
      assert slots[1..] == [Prize(h, 1, 0)];
      assert slots[1..][1..] == [];
      assert Capacity(slots[1..]) == 1;
    }
    first := DrawRegistered(raffle, a, r1, t);
    assert raffle.winners[0].name == a;
    second := DrawRegistered(raffle, b, r2, t);
    CapacityZeroIffExhausted(raffle.awards);
    TrimOfTrimmed(c);
    assert raffle.winners[0].name == a && raffle.winners[1].name == b;
    third := raffle.Draw(c, r3, t);
  }
}
