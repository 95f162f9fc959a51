/**
 The specification of `matchWithDBNames`: which candidate database names
 the stored on-change rules select. The regular-expression engine is not
 modelled; it is a parameter giving, for a pattern, whether `new RegExp`
 accepts it and, for a pattern and a name, what `test` answers.
 */
module Matching {
  import opened RuleTable

  /** The host's regular-expression engine, left uninterpreted. */
  datatype RegexEngine = RegexEngine(compiles: string -> bool, test: (string, string) -> bool)

  /** What a call answers: the matching names, or the pattern whose
      compilation threw. */
  datatype MatchResult = Matched(names: set<string>) | InvalidRegEx(regEx: string)

  /** Every stored pattern compiles. */
  ghost predicate AllCompile(e: RegexEngine, t: Table) {
    forall id :: id in t ==> e.compiles(t[id].regEx)
  }

  /** The names of `names` that one pattern accepts. */
  function RuleMatches(e: RegexEngine, regEx: string, names: seq<string>): (r: set<string>)
    ensures forall n :: n in r ==> n in names
  {
    set n | n in names && e.test(regEx, n)
  }

  /** The names of `names` that at least one stored rule accepts. */
  function MatchSet(e: RegexEngine, t: Table, names: seq<string>): (r: set<string>)
    ensures forall n :: n in r ==> n in names
    ensures names == [] ==> r == {}
    ensures t == map[] ==> r == {}
  {
    set n | n in names && exists id :: id in t && e.test(t[id].regEx, n)
  }

  /** Storing a rule under a key adds exactly the names its pattern accepts
      to those the rest of the table accepts. */
  lemma MatchSetInsert(e: RegexEngine, t: Table, id: string, d: Doc, names: seq<string>)
    ensures MatchSet(e, t[id := d], names) == MatchSet(e, t - {id}, names) + RuleMatches(e, d.regEx, names)
  {
    var lhs, rhs := MatchSet(e, t[id := d], names), MatchSet(e, t - {id}, names) + RuleMatches(e, d.regEx, names);
    forall n | n in lhs ensures n in rhs {
      var k :| k in t[id := d] && e.test(t[id := d][k].regEx, n);
      if k != id {
        assert k in t - {id} && (t - {id})[k] == t[k];
      }
    }
    forall n | n in rhs ensures n in lhs {
      if n in RuleMatches(e, d.regEx, names) {
        assert id in t[id := d] && e.test(t[id := d][id].regEx, n);
      } else {
        var k :| k in t - {id} && e.test((t - {id})[k].regEx, n);
        assert k in t[id := d] && e.test(t[id := d][k].regEx, n);
      }
    }
  }

  /** After `_setDoc` of a live document the matcher answers what the other
      rules answer plus what the new pattern accepts. */
  lemma MatchSetAfterUpsert(e: RegexEngine, t: Table, d: Doc, names: seq<string>)
    requires !d.deleted
    ensures MatchSet(e, Apply(t, d), names) == MatchSet(e, t - {d.id}, names) + RuleMatches(e, d.regEx, names)
  {
    MatchSetInsert(e, t, d.id, d, names);
  }

  /** After `_setDoc` of a deleted document, a name that only that rule
      accepted is no longer matched, and nothing new is matched. */
  lemma MatchSetAfterDelete(e: RegexEngine, t: Table, d: Doc, names: seq<string>, n: string)
    requires d.deleted
    requires forall id :: id in t && id != d.id ==> !e.test(t[id].regEx, n)
    ensures n !in MatchSet(e, Apply(t, d), names)
    ensures MatchSet(e, Apply(t, d), names) <= MatchSet(e, t, names)
  {
  }

  /** Only which names occur matters, not their order or how often they
      occur: duplicate candidates are reported once. */
  lemma MatchSetIgnoresMultiplicity(e: RegexEngine, t: Table, a: seq<string>, b: seq<string>)
    requires forall n :: n in a <==> n in b
    ensures MatchSet(e, t, a) == MatchSet(e, t, b)
  {
  }

  /** A candidate list is matched piece by piece. */
  lemma MatchSetAppend(e: RegexEngine, t: Table, a: seq<string>, b: seq<string>)
    ensures MatchSet(e, t, a + b) == MatchSet(e, t, a) + MatchSet(e, t, b)
  {
  }
}
