/** What the position tests, the dot and the search mean for matching, said of texts and characters alone. */
module RegexLaws {
  import opened RegexSyntax
  import opened RegexCompile

  /** Line feed, carriage return, line separator or paragraph separator */
  ghost predicate EndsLine(c: nat) {
    c == 10 || c == 13 || c == 0x2028 || c == 0x2029
  }

  /** One of "A..Za..z0..9_" */
  ghost predicate InWord(c: nat) {
    || 'A' as nat <= c <= 'Z' as nat || 'a' as nat <= c <= 'z' as nat
    || '0' as nat <= c <= '9' as nat || c == '_' as nat
  }

  /** `^` and `$` match without consuming: at the ends of the text, and with the flag behind and before the four
      characters that end a line. */
  lemma LineMatches(s: Subject, p: nat)
    requires p <= |s.text|
    ensures Matches(LineStart, s, p) == if p == 0 || (s.multiline && EndsLine(s.text[p - 1])) then [p] else []
    ensures Matches(LineEnd, s, p) == if p == |s.text| || (s.multiline && EndsLine(s.text[p])) then [p] else []
  {}

  /** The dot consumes any character except those four. */
  lemma DotMatches(s: Subject, p: nat)
    requires p <= |s.text|
    ensures Matches(Dot, s, p) == if p < |s.text| && !EndsLine(s.text[p]) then [p + 1] else []
  {}

  /** `\b` matches where exactly one of the two neighbours is a word character, `\B` everywhere else. */
  lemma BoundaryMatches(s: Subject, p: nat)
    requires p <= |s.text|
    ensures
      var before, behind := p > 0 && InWord(s.text[p - 1]), p < |s.text| && InWord(s.text[p]);
      && (before != behind ==> Matches(WordBoundary(false), s, p) == [p] && Matches(WordBoundary(true), s, p) == [])
      && (before == behind ==> Matches(WordBoundary(false), s, p) == [] && Matches(WordBoundary(true), s, p) == [p])
  {}

  /** The positions from lo to hi, upwards or downwards. */
  ghost function Positions(lo: nat, hi: nat, downwards: bool): seq<nat>
    requires lo <= hi
  {
    seq(hi - lo + 1, i requires 0 <= i <= hi - lo => if downwards then hi - i else lo + i)
  }

  /** A repetition of any character ends at every position from min to max characters on: the longest first if it
      is greedy, the shortest first if it is lazy. The count 2^31 - 1 stands for no upper bound. */
  lemma {:induction false} AnyRepeated(s: Subject, p: nat, min: nat, max: nat, greedy: bool)
    requires p <= |s.text| && min <= max <= 0x7fff_ffff
    ensures
      var hi := if max == 0x7fff_ffff || p + max > |s.text| then |s.text| else p + max;
      Matches(Quant(Any, min, max, greedy), s, p)
      == if p + min > |s.text| then [] else Positions(p + min, hi, greedy)
    decreases |s.text| - p
  {
    hide Matches, Positions;
    RoundOfAny(s, p, min, max, greedy);
    var hi := if max == 0x7fff_ffff || p + max > |s.text| then |s.text| else p + max;
    FirstPosition(p, hi, greedy);
    if max > 0 && p < |s.text| {
      AnyRepeated(s, p + 1, if min == 0 then 0 else min - 1, if max == 0x7fff_ffff then max else max - 1, greedy);
    }
  }

  lemma FirstPosition(lo: nat, hi: nat, downwards: bool)
    requires lo <= hi
    ensures
      Positions(lo, hi, downwards) ==
      if lo == hi then [lo]
      else if downwards then Positions(lo + 1, hi, true) + [lo] else [lo] + Positions(lo + 1, hi, false)
  {}

  /** The first round. */
  lemma RoundOfAny(s: Subject, p: nat, min: nat, max: nat, greedy: bool)
    requires p <= |s.text| && min <= max <= 0x7fff_ffff
    ensures
      var rest := if p == |s.text| || max == 0 then []
                  else Matches(Quant(Any, if min == 0 then 0 else min - 1, if max == 0x7fff_ffff then max else max - 1,
                                     greedy), s, p + 1);
      Matches(Quant(Any, min, max, greedy), s, p)
      == if max == 0 then [p] else if min > 0 then rest else if greedy then rest + [p] else [p] + rest
  {
    if max > 0 {
      assert Matches(Quant(Any, min, max, greedy), s, p) == Rep(Any, min, max, greedy, s, p);
      if p < |s.text| {
        assert Matches(Any, s, p) == [p + 1];
        OneStart(Any, min, max, greedy, s, p, p + 1);
      } else {
        assert Matches(Any, s, p) == [];
        assert RepEach(Any, min, max, greedy, s, p, []) == [];
      }
    }
  }

  lemma OneStart(a: Regex, min: nat, max: nat, greedy: bool, s: Subject, p: nat, q: nat)
    requires p < q <= |s.text|
    ensures
      RepEach(a, min, max, greedy, s, p, [q])
      == Matches(Quant(a, if min == 0 then 0 else min - 1, Decrement(max), greedy), s, q)
  {
    var first := Rep(a, if min == 0 then 0 else min - 1, Decrement(max), greedy, s, q);
    assert [q][1..] == [];
    assert RepEach(a, min, max, greedy, s, p, [q]) == first + RepEach(a, min, max, greedy, s, p, []);
  }

  /** A search finds the first position with a match, and takes the first choice there; with the sticky flag it
      looks at the first position only. */
  lemma {:induction false} SearchFirst(r: Regex, s: Subject, p: nat, sticky: bool)
    requires p <= |s.text|
    ensures
      match Search(r, s, p, sticky)
      case NotFound => forall q :: p <= q <= |s.text| && (sticky ==> q == p) ==> Matches(r, s, q) == []
      case FoundAt(start, end) =>
        && p <= start <= |s.text| && (sticky ==> start == p)
        && Matches(r, s, start) != [] && end == Matches(r, s, start)[0]
        && forall q :: p <= q < start ==> Matches(r, s, q) == []
    decreases |s.text| - p
  {
    hide Search, Matches;
    SearchStep(r, s, p, sticky);
    if Matches(r, s, p) == [] && !sticky && p < |s.text| {
      SearchFirst(r, s, p + 1, sticky);
    }
  }

  lemma SearchStep(r: Regex, s: Subject, p: nat, sticky: bool)
    requires p <= |s.text|
    ensures
      var ends := Matches(r, s, p);
      Search(r, s, p, sticky) == if ends != [] then FoundAt(p, ends[0])
                                 else if sticky || p == |s.text| then NotFound
                                 else Search(r, s, p + 1, sticky)
  {
    hide Matches;
  }

  lemma SeqStart(a: Regex, r: Regex, s: Subject, p: nat)
    requires p <= |s.text| && (Matches(a, s, p) == [] || Matches(a, s, p) == [p])
    ensures Matches(Seq(a, r), s, p) == if Matches(a, s, p) == [] then [] else Matches(r, s, p)
  {
    if Matches(a, s, p) == [p] {
      assert SeqEach(r, s, p, [p]) == Matches(r, s, p) + SeqEach(r, s, p, []);
    }
  }

  /** Without the multiline flag a pattern that begins with `^` is found at 0 or nowhere. */
  lemma AnchoredStart(r: Regex, s: Subject, p: nat, sticky: bool)
    requires p <= |s.text| && !s.multiline
    ensures
      Search(Seq(LineStart, r), s, p, sticky) ==
      if p == 0 && Matches(r, s, 0) != [] then FoundAt(0, Matches(r, s, 0)[0]) else NotFound
  {
    var anchored := Seq(LineStart, r);
    SearchFirst(anchored, s, p, sticky);
    forall q | p <= q <= |s.text|
      ensures Matches(anchored, s, q) == if q == 0 then Matches(r, s, 0) else []
    {
      LineMatches(s, q);
      SeqStart(LineStart, r, s, q);
    }
  }

  /** With the flag it is found only where a line starts. */
  lemma AnchoredLines(r: Regex, s: Subject, p: nat, sticky: bool)
    requires p <= |s.text|
    ensures
      var found := Search(Seq(LineStart, r), s, p, sticky);
      found.FoundAt? ==>
        && p <= found.start <= |s.text| && (found.start == 0 || (s.multiline && EndsLine(s.text[found.start - 1])))
        && Matches(r, s, found.start) != [] && found.end == Matches(r, s, found.start)[0]
  {
    hide Search, Matches;
    var anchored := Seq(LineStart, r);
    SearchFirst(anchored, s, p, sticky);
    var found := Search(anchored, s, p, sticky);
    if found.FoundAt? {
      LineMatches(s, found.start);
      SeqStart(LineStart, r, s, found.start);
    }
  }

  lemma {:induction false} EndsOnly(s: Subject, p: nat, starts: seq<nat>)
    requires p <= |s.text| && Forward(s, p, starts)
    ensures forall e :: e in SeqEach(LineEnd, s, p, starts) ==>
              e in starts && (e == |s.text| || (s.multiline && EndsLine(s.text[e])))
    decreases |starts|
  {
    if starts != [] {
      LineMatches(s, starts[0]);
      EndsOnly(s, p, starts[1..]);
    }
  }

  /** A match of a pattern that ends with `$` ends where the text ends or, with the flag, where a line ends. */
  lemma AnchoredEnd(r: Regex, s: Subject, p: nat, sticky: bool)
    requires p <= |s.text|
    ensures
      var found := Search(Seq(r, LineEnd), s, p, sticky);
      found.FoundAt? ==> found.end == |s.text| || (found.end < |s.text| && s.multiline && EndsLine(s.text[found.end]))
  {
    var anchored := Seq(r, LineEnd);
    SearchFirst(anchored, s, p, sticky);
    var found := Search(anchored, s, p, sticky);
    if found.FoundAt? {
      EndsOnly(s, found.start, Matches(r, s, found.start));
      assert found.end in Matches(anchored, s, found.start);
    }
  }

  /** The bits of the flags byte: the multiline flag is bit 2, the sticky flag bit 5. */
  lemma FlagBits(flags: nat)
    requires flags < 256
    ensures HasFlag(flags, FLAG_MULTILINE) <==> flags / 4 % 2 == 1
    ensures HasFlag(flags, FLAG_STICKY) <==> flags / 32 % 2 == 1
  {}
}
