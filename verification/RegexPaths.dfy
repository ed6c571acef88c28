/** Runs are linear, so an enumeration at an address where the code ends is unique. */
module RegexPaths {
  import opened RegexCode
  import opened RegexVm
  import opened RegexOffers

  lemma Linear(m: Machine, c: Config, d: Config, e: Config)
    requires Reaches(m, c, d) && Reaches(m, c, e)
    ensures Reaches(m, d, e) || Reaches(m, e, d)
  {
    hide Step;
    var j: nat :| Steps(m, j, c) == d;
    var k: nat :| Steps(m, k, c) == e;
    if j <= k {
      StepsAdd(m, j, k - j, c);
    } else {
      StepsAdd(m, k, j - k, c);
    }
  }

  lemma {:induction false} SinkStays(m: Machine, c: Config, n: nat)
    requires Step(m, c) == c
    ensures Steps(m, n, c) == c
  {
    hide Step;
    if n > 0 {
      SinkStays(m, c, n - 1);
    }
  }

  /** From c the machine goes to a configuration where it stays. */
  lemma OneStepLeft(m: Machine, c: Config, d: Config)
    requires Step(m, Step(m, c)) == Step(m, c) && Reaches(m, c, d)
    ensures d == c || d == Step(m, c)
  {
    hide Step;
    var n: nat :| Steps(m, n, c) == d;
    if n > 0 {
      SinkStays(m, Step(m, c), n - 1);
    }
  }

  /** Where the code ends the machine is stuck. */
  lemma AfterExit(m: Machine, exit: nat, p: nat, stack: seq<int>, cap: seq<Option<nat>>, frames: seq<Frame>, d: Config)
    requires Decode(m.code, exit) == None && Reaches(m, Run(exit, p, stack, cap, frames), d)
    ensures d == Run(exit, p, stack, cap, frames) || d == Stuck
  {
    hide Decode, Reaches;
    OneStepLeft(m, Run(exit, p, stack, cap, frames), d);
  }

  lemma AfterFailure(m: Machine, d: Config)
    requires Reaches(m, Fail([]), d)
    ensures d == Fail([]) || d == NoMatch
  {
    hide Reaches;
    OneStepLeft(m, Fail([]), d);
  }

  /** A configuration the machine passes through on the way has the rest of the enumeration to offer. */
  lemma Along(m: Machine, c: Config, d: Config, exit: nat, stack: seq<int>, cap: seq<Option<nat>>, ends: seq<nat>)
    requires Decode(m.code, exit) == None && Reaches(m, c, d) && (d.Run? || d.Fail?)
    requires Offers(m, c, exit, stack, cap, [], ends)
    ensures Offers(m, d, exit, stack, cap, [], ends)
  {
    hide Reaches, Decode;
    if ends == [] {
      Linear(m, c, d, Fail([]));
      if Reaches(m, Fail([]), d) {
        AfterFailure(m, d);
        ReachesSelf(m, d);
      }
    } else {
      var g :| && Quiet(g)
               && Reaches(m, c, Run(exit, ends[0], stack, cap, g + []))
               && Offers(m, Fail(g + []), exit, stack, cap, [], ends[1..]);
      var e := Run(exit, ends[0], stack, cap, g + []);
      Linear(m, c, d, e);
      if Reaches(m, e, d) {
        AfterExit(m, exit, ends[0], stack, cap, g + [], d);
        ReachesSelf(m, d);
      }
      assert Reaches(m, d, e);
    }
  }

  /** At the exit, the position is the next one of the enumeration. */
  lemma AtExit(m: Machine, exit: nat, p: nat, stack: seq<int>, cap: seq<Option<nat>>, frames: seq<Frame>,
               ends: seq<nat>)
    requires Decode(m.code, exit) == None
    requires Offers(m, Run(exit, p, stack, cap, frames), exit, stack, cap, [], ends)
    ensures ends != [] && ends[0] == p && Offers(m, Fail(frames), exit, stack, cap, [], ends[1..])
  {
    hide Reaches, Decode;
    if ends == [] {
      AfterExit(m, exit, p, stack, cap, frames, Fail([]));
    } else {
      var g :| && Quiet(g)
               && Reaches(m, Run(exit, p, stack, cap, frames), Run(exit, ends[0], stack, cap, g + []))
               && Offers(m, Fail(g + []), exit, stack, cap, [], ends[1..]);
      AfterExit(m, exit, p, stack, cap, frames, Run(exit, ends[0], stack, cap, g + []));
    }
  }

  /** What c offers above the frames h comes first in all it offers, and the failure of h has the rest. */
  lemma {:induction false} Consume(m: Machine, c: Config, exit: nat, stack: seq<int>, cap: seq<Option<nat>>,
                                   h: seq<Frame>, first: seq<nat>, ends: seq<nat>)
    requires Decode(m.code, exit) == None && Offers(m, c, exit, stack, cap, h, first)
             && Offers(m, c, exit, stack, cap, [], ends)
    ensures |first| <= |ends| && first == ends[..|first|] && Offers(m, Fail(h), exit, stack, cap, [], ends[|first|..])
    decreases |first|
  {
    hide Reaches, Decode;
    if first == [] {
      Along(m, c, Fail(h), exit, stack, cap, ends);
      assert ends[0..] == ends;
    } else {
      var g :| && Quiet(g)
               && Reaches(m, c, Run(exit, first[0], stack, cap, g + h))
               && Offers(m, Fail(g + h), exit, stack, cap, h, first[1..]);
      hide Offers;
      Along(m, c, Run(exit, first[0], stack, cap, g + h), exit, stack, cap, ends);
      AtExit(m, exit, first[0], stack, cap, g + h, ends);
      Consume(m, Fail(g + h), exit, stack, cap, h, first[1..], ends[1..]);
      assert ends[1..][|first| - 1..] == ends[|first|..];
      assert first == [first[0]] + first[1..] && ends[..|first|] == [ends[0]] + ends[1..][..|first| - 1];
    }
  }

  /** Two enumerations of one configuration are the same. */
  lemma OffersUnique(m: Machine, c: Config, exit: nat, stack: seq<int>, cap: seq<Option<nat>>, ends: seq<nat>,
                     ends': seq<nat>)
    requires Decode(m.code, exit) == None
    requires Offers(m, c, exit, stack, cap, [], ends) && Offers(m, c, exit, stack, cap, [], ends')
    ensures ends == ends'
  {
    hide Offers, Decode;
    Consume(m, c, exit, stack, cap, [], ends, ends');
    Consume(m, c, exit, stack, cap, [], ends', ends);
    assert ends[..|ends|] == ends && ends'[..|ends'|] == ends';
  }
}
