/**
 * Status primitives shared by the check plugins: the bracketed severity
 * label, threshold evaluation and the "never downgrade" aggregation of
 * return codes (0 = OK, 1 = WARNING, 2 = CRITICAL, 3 = UNKNOWN).
 */
module GenericPlugin {
  import opened Wrappers

  const OK := 0
  const WARNING := 1
  const CRITICAL := 2
  const UNKNOWN := 3

  /** Severity names by return code, as in the label table of rcstring. */
  const Names: seq<string> := ["OK", "WARNING", "CRITICAL", "UNKNOWN"]

  /** The bracket rcstring uses when the caller names none. */
  const DefaultBrace := '('

  /** The closing bracket of a supported opening bracket. */
  function Closing(b: char): (r: Option<char>)
    ensures r.Some? <==> b == '(' || b == '[' || b == '{'
    ensures r.Some? ==> r.value != b
  {
    if b == '(' then Some(')') else if b == '[' then Some(']') else if b == '{' then Some('}') else None
  }

  /**
   * rcstring: the severity name of rc between the bracket pair opened by b.
   * None stands for the KeyError raised for a code outside 0..3 or an
   * unsupported bracket.
   */
  function RcString(rc: int, b: char): (r: Option<string>)
    ensures r.Some? <==> 0 <= rc <= UNKNOWN && Closing(b).Some?
  {
    match Closing(b)
    case None => None
    case Some(close) => if 0 <= rc < |Names| then Some([b] + Names[rc] + [close]) else None
  }

  /** A label is the opening bracket, the severity name, and the matching closing bracket. */
  lemma RcStringShape(rc: int, b: char)
    requires RcString(rc, b).Some?
    ensures var s := RcString(rc, b).value;
            |s| >= 4 && s[0] == b && s[|s| - 1] == Closing(b).value && s[1..|s| - 1] == Names[rc]
  {
  }

  /** A label determines both the code and the bracket style it was made from. */
  lemma RcStringInjective(rc1: int, b1: char, rc2: int, b2: char)
    requires RcString(rc1, b1).Some? && RcString(rc1, b1) == RcString(rc2, b2)
    ensures rc1 == rc2 && b1 == b2
  {
    var s := RcString(rc1, b1).value;
    RcStringShape(rc1, b1);
    RcStringShape(rc2, b2);
    assert s[1..|s| - 1] == Names[rc1] == Names[rc2];
    assert Names[rc1][0] == s[1] == Names[rc2][0];
  }

  /** The comparison check_threshold uses when its caller names none. */
  const DefaultComparison := "gt"

  /** A limit that is set and that metric passes in the direction comparison names. */
  predicate Breaches(metric: real, limit: Option<real>, comparison: string) {
    limit.Some? && ((comparison == "gt" && metric > limit.value) || (comparison == "lt" && metric < limit.value))
  }

  /**
   * check_threshold: CRITICAL when the critical limit is breached, else
   * WARNING when the warning limit is, else OK. A comparison other than "gt" or
   * "lt" breaches nothing and yields OK.
   */
  function CheckThreshold(metric: real, warn: Option<real>, crit: Option<real>, comparison: string): (rc: int)
    ensures OK <= rc <= CRITICAL
    ensures rc == CRITICAL <==> Breaches(metric, crit, comparison)
    ensures rc == WARNING <==> !Breaches(metric, crit, comparison) && Breaches(metric, warn, comparison)
  {
    if comparison == "gt" then
      if crit.Some? && metric > crit.value then CRITICAL
      else if warn.Some? && metric > warn.value then WARNING
      else OK
    else if comparison == "lt" then
      if crit.Some? && metric < crit.value then CRITICAL
      else if warn.Some? && metric < warn.value then WARNING
      else OK
    else
      OK
  }

  /** With "gt" a larger metric is never judged better; with "lt" a smaller one is never. */
  lemma CheckThresholdMonotone(m1: real, m2: real, warn: Option<real>, crit: Option<real>)
    requires m1 <= m2
    ensures CheckThreshold(m1, warn, crit, DefaultComparison) <= CheckThreshold(m2, warn, crit, DefaultComparison)
    ensures CheckThreshold(m2, warn, crit, "lt") <= CheckThreshold(m1, warn, crit, "lt")
  {
  }

  function Negated(limit: Option<real>): (r: Option<real>)
    ensures r.Some? <==> limit.Some?
    ensures r.Some? ==> r.value == -limit.value
  {
    match limit
    case None => None
    case Some(x) => Some(-x)
  }

  /** "lt" is "gt" on the mirrored axis. */
  lemma CheckThresholdMirror(metric: real, warn: Option<real>, crit: Option<real>)
    ensures CheckThreshold(metric, warn, crit, "lt") == CheckThreshold(-metric, Negated(warn), Negated(crit), DefaultComparison)
  {
  }

  /** update_rc: the worse of a newly observed code and the code so far. */
  function UpdateRc(newRc: int, oldRc: int): (r: int)
    ensures r >= newRc && r >= oldRc
    ensures r == newRc || r == oldRc
  {
    if newRc > oldRc then newRc else oldRc
  }

  /** The laws that make update_rc safe to apply in any order. */
  lemma UpdateRcLaws(a: int, b: int, c: int)
    ensures UpdateRc(a, b) == UpdateRc(b, a)
    ensures UpdateRc(a, UpdateRc(b, c)) == UpdateRc(UpdateRc(a, b), c)
    ensures UpdateRc(a, a) == a
    ensures a >= OK ==> UpdateRc(a, OK) == a && UpdateRc(OK, a) == a
  {
  }

  /**
   * The aggregate code of one run: update_rc folded over the observed codes
   * in order, starting at OK. It is the largest of the codes and OK.
   */
  function Aggregate(codes: seq<int>): (r: int)
    ensures r >= OK
    ensures forall i :: 0 <= i < |codes| ==> codes[i] <= r
    ensures r == OK || r in codes
  {
    if codes == [] then OK else UpdateRc(codes[|codes| - 1], Aggregate(codes[..|codes| - 1]))
  }

  /** Observing more codes never lowers the aggregate. */
  lemma {:induction false} AggregateMonotone(codes: seq<int>, i: nat, j: nat)
    requires i <= j <= |codes|
    ensures Aggregate(codes[..i]) <= Aggregate(codes[..j])
  {
    var a := Aggregate(codes[..i]);
    if a != OK {
      var k :| 0 <= k < i && codes[..i][k] == a;
      assert codes[..j][k] == a;
    }
  }

  /** The aggregate does not depend on the order in which the codes were observed. */
  lemma AggregatePermutation(codes: seq<int>, other: seq<int>)
    requires multiset(codes) == multiset(other)
    ensures Aggregate(codes) == Aggregate(other)
  {
    var a, b := Aggregate(codes), Aggregate(other);
    if a != OK {
      assert a in multiset(codes);
      assert a in other;
    }
    if b != OK {
      assert b in multiset(other);
      assert b in codes;
    }
  }
}
