/** The filter that decides which hits of a file are reported and counts
    them (`DoWork` in bstrings/Program.cs): literal criteria from `--ls` and
    the lines of `--fs`, regular-expression criteria from `--lr` and the
    lines of `--fr`, each hit reported once per criterion it satisfies, or
    every non-empty hit reported once when there are no criteria. */
module Filter {
  import opened Wrappers
  import opened Text
  import opened Carving
  import opened Collector

  /** `regPattern`: the catalog's pattern when `--lr` names one, otherwise
      `--lr` itself. */
  function RegPattern(lr: string, catalog: map<string, string>): string
  {
    if lr in catalog then catalog[lr] else lr
  }

  /** A criteria set: the strings of `first`, then, when a list file was
      named and exists, each line of it (`UnionWith` of a set of the lines). */
  function Criteria(first: seq<string>, lines: Option<seq<string>>): (r: seq<string>)
    requires Distinct(first)
    ensures Distinct(r) && first <= r
    ensures forall x :: x in r <==> x in first || (lines.Some? && x in lines.value)
  {
    if lines.None? then first
    else
      var fromFile := InsertAll([], lines.value);
      InsertAllSpec([], lines.value);
      InsertAllSpec(first, fromFile);
      InsertAll(first, fromFile)
  }

  /** `fileStrings`: `--ls` when it is not empty, and the lines of the `--fs`
      file (`fsLines` is None when no such file was named or it does not
      exist). */
  function FileStrings(ls: string, fsLines: Option<seq<string>>): (r: seq<string>)
    ensures Distinct(r)
    ensures forall x :: x in r <==> (|ls| > 0 && x == ls) || (fsLines.Some? && x in fsLines.value)
  {
    Criteria(if |ls| > 0 then [ls] else [], fsLines)
  }

  /** `regexStrings`: the pattern `--lr` stands for, when `--lr` is not
      empty, and the lines of the `--fr` file. */
  function RegexStrings(lr: string, catalog: map<string, string>, frLines: Option<seq<string>>): (r: seq<string>)
    ensures Distinct(r)
    ensures forall x :: x in r <==> (|lr| > 0 && x == RegPattern(lr, catalog)) || (frLines.Some? && x in frLines.value)
  {
    Criteria(if |lr| > 0 then [RegPattern(lr, catalog)] else [], frLines)
  }

  /** What the filter produces: how many (hit, criterion) pairs it counted,
      and the lines it wrote, in order. */
  datatype Tally = Tally(count: int, lines: seq<string>)

  /** One tally followed by another. */
  function Plus(a: Tally, b: Tally): Tally
  {
    Tally(a.count + b.count, a.lines + b.lines)
  }

  /** Tallies can be grouped either way. */
  lemma PlusAssociative(a: Tally, b: Tally, c: Tally)
    ensures Plus(Plus(a, b), c) == Plus(a, Plus(b, c))
  {
    var l, r := (a.lines + b.lines) + c.lines, a.lines + (b.lines + c.lines);
    forall k | 0 <= k < |l| ensures l[k] == r[k]
    {
      if k < |a.lines| {
      } else if k < |a.lines| + |b.lines| {
      } else {
      }
    }
  }


  /** A criterion that is empty once trimmed is skipped. */
  predicate Blank(c: string)
  {
    |Trim(c)| == 0
  }

  /** A literal criterion counts for a hit when it is not blank and occurs in
      it, ignoring the case of A-Z. */
  predicate LiteralSatisfied(hit: string, lit: string)
  {
    !Blank(lit) && IndexOfIgnoreCase(hit, lit, 0) >= 0
  }

  /** A pattern counts for a hit when it is not blank, compiles (with
      `IgnoreCase` and `IgnorePatternWhitespace`, the options `rx` stands
      for) and matches the hit. */
  predicate PatternSatisfied(hit: string, pat: string, rx: Regex)
  {
    !Blank(pat) && rx.accepts(pat) && |rx.matches(pat, hit)| > 0
  }

  /** `hitOffset`: with `--off`, a tilde and the last tab-separated field of
      the hit; otherwise nothing. */
  function HitOffset(hit: string, off: bool): string
  {
    if off then "~" + LastField(hit) else ""
  }

  /** With `--ro`, the lines written for the matches of a pattern: each
      match, a tab and the hit offset. */
  function MatchLines(ms: seq<RegexMatch>, hitOffset: string): (r: seq<string>)
    ensures |r| == |ms|
    ensures forall k :: 0 <= k < |ms| ==> r[k] == ms[k].value + "\t" + hitOffset
  {
    if ms == [] then [] else MatchLines(ms[..|ms| - 1], hitOffset) + [ms[|ms| - 1].value + "\t" + hitOffset]
  }

  /** The tally of the literal criteria `lits` for one hit: one count and
      the hit written once per criterion it satisfies. */
  function LiteralTally(hit: string, lits: seq<string>): Tally
  {
    if lits == [] then Tally(0, [])
    else Plus(LiteralTally(hit, lits[..|lits| - 1]),
              if LiteralSatisfied(hit, lits[|lits| - 1]) then Tally(1, [hit]) else Tally(0, []))
  }

  /** The tally of one pattern for one hit: one count, and the hit written,
      or with `--ro` its matches, when the pattern is satisfied. */
  function PatternStep(hit: string, pat: string, rx: Regex, ro: bool, off: bool): Tally
  {
    if PatternSatisfied(hit, pat, rx) then
      Tally(1, if ro then MatchLines(rx.matches(pat, hit), HitOffset(hit, off)) else [hit])
    else Tally(0, [])
  }

  /** The tally of the patterns `pats` for one hit. */
  function PatternTally(hit: string, pats: seq<string>, rx: Regex, ro: bool, off: bool): Tally
  {
    if pats == [] then Tally(0, [])
    else Plus(PatternTally(hit, pats[..|pats| - 1], rx, ro, off), PatternStep(hit, pats[|pats| - 1], rx, ro, off))
  }

  /** The tally of one hit: nothing for the empty hit; its literal and then
      its pattern tally when there are criteria; otherwise the hit once. */
  function HitTally(hit: string, lits: seq<string>, pats: seq<string>, rx: Regex, ro: bool, off: bool): Tally
  {
    if |hit| == 0 then Tally(0, [])
    else if |lits| > 0 || |pats| > 0 then Plus(LiteralTally(hit, lits), PatternTally(hit, pats, rx, ro, off))
    else Tally(1, [hit])
  }

  /** The tally of the hits, in the order the hit set holds them. */
  function FilterTally(hits: seq<string>, lits: seq<string>, pats: seq<string>, rx: Regex, ro: bool, off: bool): Tally
  {
    if hits == [] then Tally(0, [])
    else Plus(FilterTally(hits[..|hits| - 1], lits, pats, rx, ro, off), HitTally(hits[|hits| - 1], lits, pats, rx, ro, off))
  }

  /** The filter loop: for each hit, each literal and then each pattern it
      satisfies adds one to `counter` and writes the hit (or, with `--ro`,
      each match of the pattern and the hit offset); a pattern that does not
      compile is skipped; without criteria each non-empty hit counts once. */
  method FilterHits(hits: seq<string>, fileStrings: seq<string>, regexStrings: seq<string>,
                    rx: Regex, ro: bool, off: bool)
    returns (counter: int, lines: seq<string>)
    ensures Tally(counter, lines) == FilterTally(hits, fileStrings, regexStrings, rx, ro, off)
  {
    counter := 0;
    lines := [];
    for i := 0 to |hits|
      invariant Tally(counter, lines) == FilterTally(hits[..i], fileStrings, regexStrings, rx, ro, off)
    {
      assert hits[..i + 1][..i] == hits[..i];
      var step := FilterHit(hits[i], fileStrings, regexStrings, rx, ro, off);
      assert FilterTally(hits[..i + 1], fileStrings, regexStrings, rx, ro, off) == Plus(Tally(counter, lines), step);
      counter := counter + step.count;
      lines := lines + step.lines;
    }
    assert hits[..|hits|] == hits;
  }

  /** One hit of the loop: the empty hit is skipped; with criteria, the
      literals and then the patterns; without, the hit once. */
  method FilterHit(hit: string, fileStrings: seq<string>, regexStrings: seq<string>,
                   rx: Regex, ro: bool, off: bool) returns (step: Tally)
    ensures step == HitTally(hit, fileStrings, regexStrings, rx, ro, off)
  {
    if |hit| == 0 {
      return Tally(0, []);
    }
    if |fileStrings| > 0 || |regexStrings| > 0 {
      var literals := FilterLiterals(hit, fileStrings);
      var patterns := FilterPatterns(hit, regexStrings, rx, ro, off);
      step := Plus(literals, patterns);
    } else {
      step := Tally(1, [hit]);
    }
  }

  /** The loop over the literal criteria for one hit. */
  method FilterLiterals(hit: string, fileStrings: seq<string>) returns (t: Tally)
    ensures t == LiteralTally(hit, fileStrings)
  {
    var counter := 0;
    var lines := [];
    for j := 0 to |fileStrings|
      invariant Tally(counter, lines) == LiteralTally(hit, fileStrings[..j])
    {
      var fileString := fileStrings[j];
      assert fileStrings[..j + 1][..j] == fileStrings[..j];
      if |Trim(fileString)| == 0 {
        assert lines + [] == lines;
        continue;
      }
      if IndexOfIgnoreCase(hit, fileString, 0) < 0 {
        assert lines + [] == lines;
        continue;
      }
      counter := counter + 1;
      lines := lines + [hit];
    }
    assert fileStrings[..|fileStrings|] == fileStrings;
    return Tally(counter, lines);
  }

  /** The loop over the patterns for one hit. */
  method FilterPatterns(hit: string, regexStrings: seq<string>, rx: Regex, ro: bool, off: bool) returns (t: Tally)
    ensures t == PatternTally(hit, regexStrings, rx, ro, off)
  {
    var hitOffset := "";
    if off {
      hitOffset := "~" + LastField(hit);
    }
    var counter := 0;
    var lines := [];
    for j := 0 to |regexStrings|
      invariant Tally(counter, lines) == PatternTally(hit, regexStrings[..j], rx, ro, off)
    {
      var step := FilterPattern(hit, regexStrings[j], rx, ro, off, hitOffset);
      PatternTallyPrefix(hit, regexStrings, j, rx, ro, off);
      assert Plus(Tally(counter, lines), step) == Tally(counter + step.count, lines + step.lines);
      counter := counter + step.count;
      lines := lines + step.lines;
    }
    assert regexStrings[..|regexStrings|] == regexStrings;
    return Tally(counter, lines);
  }

  /** The tally of the first `j + 1` patterns is that of the first `j`, then
      the `j`-th pattern's. */
  lemma PatternTallyPrefix(hit: string, pats: seq<string>, j: int, rx: Regex, ro: bool, off: bool)
    requires 0 <= j < |pats|
    ensures PatternTally(hit, pats[..j + 1], rx, ro, off)
         == Plus(PatternTally(hit, pats[..j], rx, ro, off), PatternStep(hit, pats[j], rx, ro, off))
  {
    assert pats[..j + 1] == pats[..j] + [pats[j]];
    PatternTallyLast(hit, pats[..j], pats[j], rx, ro, off);
  }

  /** One pattern of the loop: a blank pattern is skipped, as is one that
      does not compile (the constructor throws and the error is logged);
      otherwise, when it matches, one count and the hit or its matches. */
  method FilterPattern(hit: string, regString: string, rx: Regex, ro: bool, off: bool, hitOffset: string) returns (step: Tally)
    requires hitOffset == HitOffset(hit, off)
    ensures step == PatternStep(hit, regString, rx, ro, off)
  {
    step := Tally(0, []);
    if |Trim(regString)| == 0 || !rx.accepts(regString) {
      return;
    }
    var matches := rx.matches(regString, hit);
    if |matches| > 0 {
      var written := [hit];
      if ro {
        written := WriteMatches([], matches, hitOffset);
        assert [] + MatchLines(matches, hitOffset) == MatchLines(matches, hitOffset);
      }
      step := Tally(1, written);
    }
  }

  /** The `foreach` over the matches of a pattern with `--ro`. */
  method WriteMatches(lines: seq<string>, matches: seq<RegexMatch>, hitOffset: string) returns (r: seq<string>)
    ensures r == lines + MatchLines(matches, hitOffset)
  {
    r := lines;
    for k := 0 to |matches|
      invariant r == lines + MatchLines(matches[..k], hitOffset)
    {
      assert matches[..k + 1][..k] == matches[..k];
      r := r + [matches[k].value + "\t" + hitOffset];
    }
    assert matches[..|matches|] == matches;
  }

  /** Without criteria every hit of the set but the empty one is counted
      once, and, when there is no empty hit, the hits are written as they
      are. */
  lemma {:induction false} NoCriteriaCountsNonEmptyHits(hits: seq<string>, rx: Regex, ro: bool, off: bool)
    requires Distinct(hits)
    ensures var t := FilterTally(hits, [], [], rx, ro, off);
      && t.count == |hits| - (if "" in hits then 1 else 0)
      && ("" !in hits ==> t.lines == hits)
  {
    if hits != [] {
      var n := |hits| - 1;
      var init := hits[..n];
      assert hits == init + [hits[n]];
      assert Distinct(init) by {
        forall i, j | 0 <= i < j < |init| ensures init[i] != init[j] {
          assert init[i] == hits[i] && init[j] == hits[j];
        }
      }
      NoCriteriaCountsNonEmptyHits(init, rx, ro, off);
      if hits[n] == "" {
        forall i | 0 <= i < |init| ensures init[i] != "" {
          assert init[i] == hits[i];
        }
      }
    }
  }

  /** Criteria that are all blank count nothing and write nothing: with any
      criterion present, nothing is reported unless some criterion is met. */
  lemma {:induction false} BlankCriteriaReportNothing(hits: seq<string>, lits: seq<string>, pats: seq<string>,
                                                      rx: Regex, ro: bool, off: bool)
    requires |lits| > 0 || |pats| > 0
    requires forall c :: c in lits || c in pats ==> Blank(c)
    ensures FilterTally(hits, lits, pats, rx, ro, off) == Tally(0, [])
  {
    if hits != [] {
      var init, hit := hits[..|hits| - 1], hits[|hits| - 1];
      BlankCriteriaReportNothing(init, lits, pats, rx, ro, off);
      BlankCriteriaHitNothing(hit, lits, pats, rx, ro, off);
      ZeroHitsReportNothing(hits, lits, pats, rx, ro, off);
    }
  }

  /** Hits that each tally nothing, the last one included, tally nothing. */
  lemma ZeroHitsReportNothing(hits: seq<string>, lits: seq<string>, pats: seq<string>, rx: Regex, ro: bool, off: bool)
    requires hits != []
    requires FilterTally(hits[..|hits| - 1], lits, pats, rx, ro, off) == Tally(0, [])
    requires HitTally(hits[|hits| - 1], lits, pats, rx, ro, off) == Tally(0, [])
    ensures FilterTally(hits, lits, pats, rx, ro, off) == Tally(0, [])
  {
    assert Plus(Tally(0, []), Tally(0, [])) == Tally(0, []);
  }

  /** With criteria that are all blank, a hit counts nothing and writes nothing. */
  lemma BlankCriteriaHitNothing(hit: string, lits: seq<string>, pats: seq<string>, rx: Regex, ro: bool, off: bool)
    requires |lits| > 0 || |pats| > 0
    requires forall c :: c in lits ==> Blank(c)
    requires forall c :: c in pats ==> Blank(c)
    ensures HitTally(hit, lits, pats, rx, ro, off) == Tally(0, [])
  {
    BlankLiteralsCountNothing(hit, lits);
    BlankPatternsCountNothing(hit, pats, rx, ro, off);
    ZeroTalliesHitNothing(hit, lits, pats, rx, ro, off);
  }

  /** A hit whose literal and pattern tallies are both empty tallies nothing. */
  lemma ZeroTalliesHitNothing(hit: string, lits: seq<string>, pats: seq<string>, rx: Regex, ro: bool, off: bool)
    requires |lits| > 0 || |pats| > 0
    requires LiteralTally(hit, lits) == Tally(0, []) && PatternTally(hit, pats, rx, ro, off) == Tally(0, [])
    ensures HitTally(hit, lits, pats, rx, ro, off) == Tally(0, [])
  {
    assert Plus(Tally(0, []), Tally(0, [])) == Tally(0, []);
  }

  /** Blank literals count nothing. */
  lemma {:induction false} BlankLiteralsCountNothing(hit: string, lits: seq<string>)
    requires forall c :: c in lits ==> Blank(c)
    ensures LiteralTally(hit, lits) == Tally(0, [])
  {
    if lits != [] {
      assert lits[|lits| - 1] in lits;
      BlankLiteralsCountNothing(hit, lits[..|lits| - 1]);
    }
  }

  /** Blank patterns count nothing. */
  lemma {:induction false} BlankPatternsCountNothing(hit: string, pats: seq<string>, rx: Regex, ro: bool, off: bool)
    requires forall c :: c in pats ==> Blank(c)
    ensures PatternTally(hit, pats, rx, ro, off) == Tally(0, [])
  {
    if pats != [] {
      assert pats[|pats| - 1] in pats;
      BlankPatternsCountNothing(hit, pats[..|pats| - 1], rx, ro, off);
    }
  }

  /** The tally of two lists of patterns is the tally of the first followed
      by that of the second. */
  lemma {:induction false} PatternTallyAppend(hit: string, a: seq<string>, b: seq<string>, rx: Regex, ro: bool, off: bool)
    ensures PatternTally(hit, a + b, rx, ro, off) == Plus(PatternTally(hit, a, rx, ro, off), PatternTally(hit, b, rx, ro, off))
    decreases |b|
  {
    if b == [] {
      assert a + b == a;
    } else {
      var init, p := b[..|b| - 1], b[|b| - 1];
      assert b == init + [p];
      PatternTallyAppend(hit, a, init, rx, ro, off);
      PatternTallyAppendStep(hit, a, init, p, rx, ro, off);
    }
  }

  /** One step of `PatternTallyAppend`: one more pattern at the end of the second list. */
  lemma PatternTallyAppendStep(hit: string, a: seq<string>, init: seq<string>, p: string, rx: Regex, ro: bool, off: bool)
    requires PatternTally(hit, a + init, rx, ro, off) == Plus(PatternTally(hit, a, rx, ro, off), PatternTally(hit, init, rx, ro, off))
    ensures PatternTally(hit, a + (init + [p]), rx, ro, off)
         == Plus(PatternTally(hit, a, rx, ro, off), PatternTally(hit, init + [p], rx, ro, off))
  {
    assert a + (init + [p]) == (a + init) + [p];
    PatternTallyLast(hit, a + init, p, rx, ro, off);
    PatternTallyLast(hit, init, p, rx, ro, off);
    PlusAssociative(PatternTally(hit, a, rx, ro, off), PatternTally(hit, init, rx, ro, off), PatternStep(hit, p, rx, ro, off));
  }

  /** A pattern added at the end adds its own tally. */
  lemma PatternTallyLast(hit: string, pats: seq<string>, p: string, rx: Regex, ro: bool, off: bool)
    ensures PatternTally(hit, pats + [p], rx, ro, off) == Plus(PatternTally(hit, pats, rx, ro, off), PatternStep(hit, p, rx, ro, off))
  {
    assert (pats + [p])[..|pats|] == pats;
  }

  /** A pattern that does not compile adds nothing, and the patterns after
      it are tallied as if it were absent. */
  lemma RejectedPatternAddsNothing(hit: string, a: seq<string>, p: string, b: seq<string>, rx: Regex, ro: bool, off: bool)
    requires !rx.accepts(p)
    ensures PatternTally(hit, a + [p] + b, rx, ro, off) == PatternTally(hit, a + b, rx, ro, off)
  {
    PatternTallyAppend(hit, a + [p], b, rx, ro, off);
    PatternTallyAppend(hit, a, b, rx, ro, off);
    assert (a + [p])[..|a|] == a;
  }

  /** A literal counts exactly when it is not blank and occurs somewhere in
      the hit, ignoring case. */
  lemma LiteralSatisfiedSpec(hit: string, lit: string)
    ensures LiteralSatisfied(hit, lit) <==> !Blank(lit) && exists i :: OccursIgnoreCaseAt(hit, lit, i)
  {
    IndexOfIgnoreCaseSpec(hit, lit, 0);
  }

  /** `n` copies of `hit`: the lines written when each count writes the hit. */
  function Copies(n: nat, hit: string): (r: seq<string>)
    ensures |r| == n && forall k :: 0 <= k < n ==> r[k] == hit
  {
    seq(n, _ => hit)
  }

  /** The literal tally counts at most one per literal. */
  lemma {:induction false} LiteralTallyBound(hit: string, lits: seq<string>)
    ensures 0 <= LiteralTally(hit, lits).count <= |lits|
  {
    if lits != [] {
      LiteralTallyBound(hit, lits[..|lits| - 1]);
    }
  }

  /** The literal tally writes the hit once per count. */
  lemma {:induction false} LiteralTallyLines(hit: string, lits: seq<string>)
    ensures var t := LiteralTally(hit, lits);
      t.count >= 0 && t.lines == Copies(t.count, hit)
  {
    if lits != [] {
      var n := |lits| - 1;
      LiteralTallyLines(hit, lits[..n]);
      var prev := LiteralTally(hit, lits[..n]);
      var step := if LiteralSatisfied(hit, lits[n]) then Tally(1, [hit]) else Tally(0, []);
      assert LiteralTally(hit, lits) == Plus(prev, step);
      assert Copies(prev.count + step.count, hit) == Copies(prev.count, hit) + step.lines;
    }
  }

  /** The literal tally counts something exactly when the hit satisfies one
      of the literals. */
  lemma {:induction false} LiteralTallyPositive(hit: string, lits: seq<string>)
    ensures LiteralTally(hit, lits).count > 0 <==> exists i :: 0 <= i < |lits| && LiteralSatisfied(hit, lits[i])
  {
    if lits != [] {
      var init := lits[..|lits| - 1];
      LiteralTallyPositive(hit, init);
      LiteralTallyBound(hit, init);
      LiteralTallySnoc(hit, lits);
      forall i | 0 <= i < |init| ensures init[i] == lits[i] {}
    }
  }

  /** The last literal adds one when the hit satisfies it. */
  lemma LiteralTallySnoc(hit: string, lits: seq<string>)
    requires lits != []
    ensures LiteralTally(hit, lits).count
         == LiteralTally(hit, lits[..|lits| - 1]).count + (if LiteralSatisfied(hit, lits[|lits| - 1]) then 1 else 0)
  {
  }

  /** The pattern tally counts at most one per pattern. */
  lemma {:induction false} PatternTallyBound(hit: string, pats: seq<string>, rx: Regex, ro: bool, off: bool)
    ensures 0 <= PatternTally(hit, pats, rx, ro, off).count <= |pats|
  {
    if pats != [] {
      PatternTallyBound(hit, pats[..|pats| - 1], rx, ro, off);
    }
  }

  /** Without `--ro` the pattern tally writes the hit once per count. */
  lemma {:induction false} PatternTallyLines(hit: string, pats: seq<string>, rx: Regex, off: bool)
    ensures var t := PatternTally(hit, pats, rx, false, off);
      t.count >= 0 && t.lines == Copies(t.count, hit)
  {
    if pats != [] {
      var n := |pats| - 1;
      PatternTallyLines(hit, pats[..n], rx, off);
      var prev := PatternTally(hit, pats[..n], rx, false, off);
      var step := PatternStep(hit, pats[n], rx, false, off);
      assert PatternTally(hit, pats, rx, false, off) == Plus(prev, step);
      assert Copies(prev.count + step.count, hit) == Copies(prev.count, hit) + step.lines;
    }
  }

  /** The pattern tally counts something exactly when the hit satisfies one
      of the patterns. */
  lemma {:induction false} PatternTallyPositive(hit: string, pats: seq<string>, rx: Regex, ro: bool, off: bool)
    ensures PatternTally(hit, pats, rx, ro, off).count > 0 <==> exists i :: 0 <= i < |pats| && PatternSatisfied(hit, pats[i], rx)
  {
    if pats != [] {
      var init := pats[..|pats| - 1];
      PatternTallyPositive(hit, init, rx, ro, off);
      PatternTallyBound(hit, init, rx, ro, off);
      PatternTallySnoc(hit, pats, rx, ro, off);
      forall i | 0 <= i < |init| ensures init[i] == pats[i] {}
    }
  }

  /** The last pattern adds one when the hit satisfies it. */
  lemma PatternTallySnoc(hit: string, pats: seq<string>, rx: Regex, ro: bool, off: bool)
    requires pats != []
    ensures PatternTally(hit, pats, rx, ro, off).count
         == PatternTally(hit, pats[..|pats| - 1], rx, ro, off).count + (if PatternSatisfied(hit, pats[|pats| - 1], rx) then 1 else 0)
  {
  }

  /** A hit is counted exactly when it is not empty and either there are no
      criteria or it satisfies one of them. */
  lemma HitCounted(hit: string, lits: seq<string>, pats: seq<string>, rx: Regex, ro: bool, off: bool)
    ensures HitTally(hit, lits, pats, rx, ro, off).count > 0
        <==> |hit| > 0 && ((lits == [] && pats == [])
                           || (exists i :: 0 <= i < |lits| && LiteralSatisfied(hit, lits[i]))
                           || (exists i :: 0 <= i < |pats| && PatternSatisfied(hit, pats[i], rx)))
  {
    if |hit| > 0 && (|lits| > 0 || |pats| > 0) {
      LiteralTallyBound(hit, lits);
      LiteralTallyPositive(hit, lits);
      PatternTallyBound(hit, pats, rx, ro, off);
      PatternTallyPositive(hit, pats, rx, ro, off);
      assert HitTally(hit, lits, pats, rx, ro, off).count
          == LiteralTally(hit, lits).count + PatternTally(hit, pats, rx, ro, off).count;
    }
  }

  /** A hit is counted at most once per criterion, or once when there are
      none; without `--ro` it is written once per count. */
  lemma HitTallyBound(hit: string, lits: seq<string>, pats: seq<string>, rx: Regex, ro: bool, off: bool)
    ensures var t := HitTally(hit, lits, pats, rx, ro, off);
      && 0 <= t.count <= (if lits == [] && pats == [] then 1 else |lits| + |pats|)
      && (!ro ==> t.lines == Copies(t.count, hit))
  {
    if |hit| > 0 && (|lits| > 0 || |pats| > 0) {
      var l := LiteralTally(hit, lits);
      var p := PatternTally(hit, pats, rx, ro, off);
      LiteralTallyBound(hit, lits);
      PatternTallyBound(hit, pats, rx, ro, off);
      assert HitTally(hit, lits, pats, rx, ro, off) == Plus(l, p);
      if !ro {
        LiteralTallyLines(hit, lits);
        PatternTallyLines(hit, pats, rx, off);
        assert Copies(l.count + p.count, hit) == Copies(l.count, hit) + Copies(p.count, hit);
      }
    } else if |hit| > 0 {
      assert Copies(1, hit) == [hit];
    }
  }

  /** With `--off`, the hit offset of a hit tagged with its offset, found in
      either pass, is a tilde and its offset field. */
  lemma HitOffsetOfTaggedHit(value: string, offset: int, suffix: string, prefix: string)
    requires suffix == UnicodeSuffix || suffix == AsciiSuffix
    ensures HitOffset(prefix + Tagged(value, offset, suffix), true) == "~" + OffsetField(offset, suffix)
  {
    TaggedLastField(value, offset, suffix, prefix);
  }

  /** "forensics" is not blank and occurs in itself. */
  lemma ForensicsMatchesItself()
    ensures LiteralSatisfied("forensics", "forensics")
  {
    var lit := "forensics";
    TrimSpec(lit);
    assert !IsWhiteSpace(lit[0]);
    assert OccursIgnoreCaseAt(lit, lit, 0);
  }

  /** "forensics" does not occur in "unrelated", even ignoring case. */
  lemma ForensicsNotInUnrelated()
    ensures !LiteralSatisfied("unrelated", "forensics")
  {
    var lit := "forensics";
    IndexOfIgnoreCaseSpec("unrelated", lit, 0);
    assert !OccursIgnoreCaseAt("unrelated", lit, 0) by {
      assert FoldChar("unrelated"[0]) != FoldChar(lit[0]);
    }
  }

  /** With a single literal criterion and no pattern, a non-empty hit that
      holds the literal counts once and is written once. */
  lemma LiteralHitCounted(h: string, lit: string, rx: Regex, ro: bool, off: bool)
    requires |h| > 0 && LiteralSatisfied(h, lit)
    ensures HitTally(h, [lit], [], rx, ro, off) == Tally(1, [h])
  {
    var lits := [lit];
    assert lits[..0] == [];
    assert LiteralTally(h, lits) == Tally(1, [h]);
  }

  /** With a single literal criterion and no pattern, a hit that does not
      hold the literal adds nothing. */
  lemma LiteralHitNotCounted(h: string, lit: string, rx: Regex, ro: bool, off: bool)
    requires !LiteralSatisfied(h, lit)
    ensures HitTally(h, [lit], [], rx, ro, off) == Tally(0, [])
  {
    assert [lit][..0] == [];
    LiteralTallySnoc(h, [lit]);
    LiteralTallyLines(h, [lit]);
  }

  /** Two hits, the first counted once and the second not at all: one count,
      and the first hit written once. */
  lemma TwoHitsOneCounted(h1: string, h2: string, lits: seq<string>, pats: seq<string>, rx: Regex, ro: bool, off: bool)
    requires HitTally(h1, lits, pats, rx, ro, off) == Tally(1, [h1])
    requires HitTally(h2, lits, pats, rx, ro, off) == Tally(0, [])
    ensures FilterTally([h1, h2], lits, pats, rx, ro, off) == Tally(1, [h1])
  {
    var hits := [h1, h2];
    var none: seq<string> := [];
    assert hits[..1] == [h1] && [h1][..0] == none;
    assert FilterTally([h1], lits, pats, rx, ro, off) == Plus(Tally(0, none), Tally(1, [h1]));
    assert none + [h1] == [h1];
    assert FilterTally(hits, lits, pats, rx, ro, off) == Plus(Tally(1, [h1]), Tally(0, none));
    assert [h1] + none == [h1];
  }

  /** A literal criterion "forensics" over the hits "forensics" and
      "unrelated": one count, and "forensics" written once. */
  lemma LiteralFilterExample(rx: Regex, ro: bool, off: bool)
    ensures FilterTally(["forensics", "unrelated"], ["forensics"], [], rx, ro, off) == Tally(1, ["forensics"])
  {
    ForensicsMatchesItself();
    ForensicsNotInUnrelated();
    LiteralHitCounted("forensics", "forensics", rx, ro, off);
    LiteralHitNotCounted("unrelated", "forensics", rx, ro, off);
    TwoHitsOneCounted("forensics", "unrelated", ["forensics"], [], rx, ro, off);
  }
}
