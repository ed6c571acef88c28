/** Enumeration by backtracking. A configuration offers a list of positions at an exit address when the
    machine reaches the exit with the first position, and a failure from there leads on to the rest of
    the list, until the frames it started with are all that is left. */
module RegexOffers {
  import opened RegexCode
  import opened RegexVm

  /** Frames a success passes over. */
  ghost predicate Quiet(g: seq<Frame>) {
    forall i :: 0 <= i < |g| ==> g[i].kind.Split? || g[i].kind.Greedy?
  }

  ghost predicate Offers(m: Machine, c: Config, exit: nat, stack: seq<int>, cap: seq<Option<nat>>, base: seq<Frame>,
                         ends: seq<nat>)
    decreases |ends|
  {
    if ends == [] then Reaches(m, c, Fail(base))
    else exists g ::
      && Quiet(g)
      && Reaches(m, c, Run(exit, ends[0], stack, cap, g + base))
      && Offers(m, Fail(g + base), exit, stack, cap, base, ends[1..])
  }

  lemma OffersPre(m: Machine, c: Config, d: Config, exit: nat, stack: seq<int>, cap: seq<Option<nat>>, base: seq<Frame>,
                  ends: seq<nat>)
    requires Reaches(m, c, d) && Offers(m, d, exit, stack, cap, base, ends)
    ensures Offers(m, c, exit, stack, cap, base, ends)
  {
    hide Reaches;
    if ends == [] {
      ReachesTrans(m, c, d, Fail(base));
    } else {
      var g :| && Quiet(g)
               && Reaches(m, d, Run(exit, ends[0], stack, cap, g + base))
               && Offers(m, Fail(g + base), exit, stack, cap, base, ends[1..]);
      ReachesTrans(m, c, d, Run(exit, ends[0], stack, cap, g + base));
    }
  }

  /** First everything c offers above the frames g, then what the failure of g offers. */
  lemma {:induction false} OffersAppend(m: Machine, c: Config, exit: nat, stack: seq<int>, cap: seq<Option<nat>>,
                                        g: seq<Frame>, base: seq<Frame>, first: seq<nat>, second: seq<nat>)
    requires Quiet(g)
    requires Offers(m, c, exit, stack, cap, g + base, first)
    requires Offers(m, Fail(g + base), exit, stack, cap, base, second)
    ensures Offers(m, c, exit, stack, cap, base, first + second)
    decreases |first|
  {
    hide Reaches;
    if first == [] {
      assert first + second == second;
      OffersPre(m, c, Fail(g + base), exit, stack, cap, base, second);
    } else {
      var h :| && Quiet(h)
               && Reaches(m, c, Run(exit, first[0], stack, cap, h + (g + base)))
               && Offers(m, Fail(h + (g + base)), exit, stack, cap, g + base, first[1..]);
      OffersAppend(m, Fail(h + (g + base)), exit, stack, cap, g, base, first[1..], second);
      assert (first + second)[1..] == first[1..] + second;
      assert h + (g + base) == (h + g) + base;
      assert Quiet(h + g);
    }
  }

  lemma OffersOne(m: Machine, c: Config, exit: nat, stack: seq<int>, cap: seq<Option<nat>>, base: seq<Frame>, p: nat)
    requires Reaches(m, c, Run(exit, p, stack, cap, base))
    ensures Offers(m, c, exit, stack, cap, base, [p])
  {
    hide Reaches;
    var g: seq<Frame> := [];
    assert g + base == base && Quiet(g);
    ReachesSelf(m, Fail(base));
    assert Offers(m, Fail(base), exit, stack, cap, base, [p][1..]);
    assert Reaches(m, c, Run(exit, [p][0], stack, cap, g + base));
  }

  /** Executing the instruction at the program counter. */
  lemma ReachesExec(m: Machine, c: Config, i: Instr)
    requires c.Run? && c.cptr <= |m.subject.text| && Decode(m.code, c.pc) == Some(i)
    ensures Reaches(m, c, Exec(m, i, c))
  {
    ReachesSelf(m, Exec(m, i, c));
    ReachesStep(m, c, Exec(m, i, c));
  }

  /** A failure resumes the top frame if it is a branch. */
  lemma ReachesBacktrack(m: Machine, f: Frame, base: seq<Frame>)
    ensures Reaches(m, Fail([f] + base), Backtrack(m, [f] + base))
  {
    ReachesSelf(m, Backtrack(m, [f] + base));
    ReachesStep(m, Fail([f] + base), Backtrack(m, [f] + base));
  }

  /** A success unwinds the quiet frames above a lookahead. */
  lemma {:induction false} ReachesUnwind(m: Machine, cap: seq<Option<nat>>, g: seq<Frame>, base: seq<Frame>)
    requires Quiet(g)
    ensures Reaches(m, Success(cap, g + base), Success(cap, base))
    decreases |g|
  {
    if g == [] {
      assert g + base == base;
      ReachesSelf(m, Success(cap, base));
    } else {
      assert (g + base)[1..] == g[1..] + base;
      ReachesUnwind(m, cap, g[1..], base);
      ReachesStep(m, Success(cap, g + base), Success(cap, base));
    }
  }
}
