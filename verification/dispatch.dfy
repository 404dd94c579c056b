/** The macro grammar of `assert_all_eq!` (src/lib.rs:27-97) and its
    debug-only wrapper `debug_assert_all_eq!` (src/lib.rs:127-129).

    An invocation is its list of expressions (each standing for the value it
    evaluates to), whether the list ends in a comma, whether a semicolon
    follows, and the custom message after the semicolon (the string the
    `format!` arguments would produce). The arms are tried in their textual
    order; an invocation no arm accepts is rejected at compile time, which is
    `None` here. */
module Dispatch {
  import opened Options
  import opened Comparator
  import Report
  import Decimal

  datatype Invocation<T> = Invocation(exprs: seq<T>, trailingComma: bool, semicolon: bool, message: Option<string>)

  /** What an accepted invocation expands to: the standard two-value
      `assert_eq!`, or the N-ary comparator over all the values. */
  datatype Expansion<T> =
    | AssertEq(left: T, right: T, message: Option<string>)
    | AllEq(values: seq<T>, message: Option<string>)

  /** The invocations some arm accepts: at least two expressions; a message
      only after a semicolon; and, for three or more expressions without a
      message, no trailing comma. */
  ghost predicate Accepted<T>(inv: Invocation<T>) {
    && |inv.exprs| >= 2
    && (inv.message.Some? ==> inv.semicolon)
    && (|inv.exprs| >= 3 && inv.message.None? ==> !inv.trailingComma)
  }

  function Separators<T>(inv: Invocation<T>): nat {
    (if inv.trailingComma then 2 else 0) + (if inv.semicolon then 1 else 0)
  }

  /** Macro expansion. Two expressions always reach `assert_eq!` with the same
      operands and message, whatever the trailing separators; three or more
      reach the N-ary comparator, the `;` and `,; msg` arms first rewriting
      to the separator-free and `; msg` forms. */
  function Expand<T>(inv: Invocation<T>): (x: Option<Expansion<T>>)
    ensures x.Some? <==> Accepted(inv)
    ensures x.Some? && |inv.exprs| == 2 ==> x.value == AssertEq(inv.exprs[0], inv.exprs[1], inv.message)
    ensures x.Some? && |inv.exprs| >= 3 ==> x.value == AllEq(inv.exprs, inv.message)
    decreases Separators(inv)
  {
    var n, comma, semi, message := |inv.exprs|, inv.trailingComma, inv.semicolon, inv.message;
    // lines 28-31: no separator, `;`, `,` and `,;`
    if n == 2 && message.None? then Some(AssertEq(inv.exprs[0], inv.exprs[1], None))
    // lines 32-33: `; msg` and `,; msg`
    else if n == 2 && semi then Some(AssertEq(inv.exprs[0], inv.exprs[1], message))
    // line 35: `;` is dropped
    else if n >= 2 && !comma && semi && message.None? then Expand(Invocation(inv.exprs, false, false, None))
    // line 36: `,; msg` becomes `; msg`
    else if n >= 2 && comma && semi && message.Some? then Expand(Invocation(inv.exprs, false, true, message))
    // line 37: the comparator without a message
    else if n >= 2 && !comma && !semi && message.None? then Some(AllEq(inv.exprs, None))
    // line 68: the comparator with a message
    else if n >= 2 && !comma && semi && message.Some? then Some(AllEq(inv.exprs, message))
    else None
  }

  /** The standard `assert_eq!(left, right [, msg])`, a primitive outside this
      crate: both operands are evaluated, compared once as `left == right`,
      and a mismatch panics naming both renderings, forcing the message only
      then. It behaves as the comparator specification demands of two values. */
  function AssertEqPrimitive<T>(eq: (T, T) -> bool, repr: T -> string, left: T, right: T,
                                message: Option<string>): (r: Run)
    ensures Conforms(eq, repr, [left, right], message, r)
  {
    var steps := [Evaluate(0), Evaluate(1), Compare(0, 1)];
    assert steps == Steps(2);
    assert [left, right][0] == left && [left, right][1] == right;
    if eq(left, right) then Run(Pass, steps)
    else Run(Fail(1, repr(left), repr(right), message), steps + Forced(message))
  }

  function Operands<T>(x: Expansion<T>): seq<T> {
    match x
    case AssertEq(left, right, _) => [left, right]
    case AllEq(values, _) => values
  }

  function Execute<T>(x: Expansion<T>, eq: (T, T) -> bool, repr: T -> string): (r: Run)
    requires |Operands(x)| >= 2
    ensures Conforms(eq, repr, Operands(x), x.message, r)
  {
    match x
    case AssertEq(left, right, message) => AssertEqPrimitive(eq, repr, left, right, message)
    case AllEq(values, message) =>
      CheckConforms(eq, repr, values, message);
      Check(eq, repr, values, message)
  }

  /** `assert_all_eq!`: rejected at compile time exactly when no arm accepts
      the invocation; otherwise it passes exactly when every value equals the
      first, and fails at the first position that does not, with the two
      renderings and the message, after the evaluations and comparisons the
      comparator specification prescribes. */
  function AssertAllEq<T>(inv: Invocation<T>, eq: (T, T) -> bool, repr: T -> string): (r: Option<Run>)
    ensures r.Some? <==> Accepted(inv)
    ensures r.Some? ==> Conforms(eq, repr, inv.exprs, inv.message, r.value)
  {
    match Expand(inv)
    case None => None
    case Some(x) =>
      assert Operands(x) == inv.exprs;
      Some(Execute(x, eq, repr))
  }

  /** `debug_assert_all_eq!`: the invocation is still expanded, so a malformed
      one is rejected whatever the flag; with the flag off an accepted one
      evaluates, compares and reports nothing; with it on, it is
      `assert_all_eq!` on the same tokens. */
  function DebugAssertAllEq<T>(debugAssertions: bool, inv: Invocation<T>, eq: (T, T) -> bool,
                               repr: T -> string): (r: Option<Run>)
    ensures r.Some? <==> Accepted(inv)
    ensures r.Some? && !debugAssertions ==> r.value == Run(Pass, [])
    ensures debugAssertions ==> r == AssertAllEq(inv, eq, repr)
  {
    match Expand(inv)
    case None => None
    case Some(x) => Some(if debugAssertions then Execute(x, eq, repr) else Run(Pass, []))
  }

  /** The panic payload of the N-ary comparator for a failing outcome. */
  function Payload(o: Outcome): string
    requires o.Fail?
  {
    Report.Diagnostic(o.position, o.left, o.right, o.message)
  }

  // ---------------------------------------------------------------------------
  // Properties of the dispatch

  /** Trailing separators do not matter: two accepted invocations with the same
      expressions and message expand alike and behave alike. */
  lemma SeparatorsIrrelevant<T>(inv1: Invocation<T>, inv2: Invocation<T>, eq: (T, T) -> bool, repr: T -> string)
    requires Accepted(inv1) && Accepted(inv2)
    requires inv1.exprs == inv2.exprs && inv1.message == inv2.message
    ensures Expand(inv1) == Expand(inv2)
    ensures AssertAllEq(inv1, eq, repr) == AssertAllEq(inv2, eq, repr)
  {
  }

  /** In this model, where `assert_eq!` reports its failure as position 1,
      delegating two values to it behaves as the N-ary comparator on them:
      same outcome, same renderings, same message, same evaluations and
      comparisons. Its own panic text differs and is not modelled. */
  lemma TwoValueDelegation<T>(eq: (T, T) -> bool, repr: T -> string, left: T, right: T, message: Option<string>)
    ensures AssertEqPrimitive(eq, repr, left, right, message) == Check(eq, repr, [left, right], message)
  {
    CheckConforms(eq, repr, [left, right], message);
    ConformsUnique(eq, repr, [left, right], message,
                   AssertEqPrimitive(eq, repr, left, right, message), Check(eq, repr, [left, right], message));
  }

  /** A failing N-ary assertion names position 0 and the first mismatching
      position in its header, and, when the renderings and the message are
      single lines, shows exactly the anchor's and that element's renderings
      on the two labelled lines. */
  lemma FailureReport<T>(inv: Invocation<T>, eq: (T, T) -> bool, repr: T -> string)
    requires Accepted(inv) && |inv.exprs| >= 3
    requires !AllMatchAnchor(eq, inv.exprs)
    ensures var r := AssertAllEq(inv, eq, repr).value;
      && r.outcome.Fail?
      && IsFirstMismatch(eq, inv.exprs, r.outcome.position)
      && Report.ReportedPosition(Payload(r.outcome)) == Some(r.outcome.position)
    ensures var r := AssertAllEq(inv, eq, repr).value;
      var i := r.outcome.position;
      var index := Decimal.Dec(i);
      (forall v :: Report.NoNewline(repr(v))) && (inv.message.Some? ==> Report.NoNewline(inv.message.value)) ==>
        Report.SplitLines(Payload(r.outcome)) ==
          [ Report.Header + index,
            Report.Pad(|index|) + "0: `" + repr(inv.exprs[0]) + "`,",
            " " + index + ": `" + repr(inv.exprs[i]) + "`" + Report.Suffix(inv.message) ]
  {
    var r := AssertAllEq(inv, eq, repr).value;
    var o := r.outcome;
    Report.HeaderNamesPosition(o.position, o.left, o.right, o.message);
    if (forall v :: Report.NoNewline(repr(v))) && (inv.message.Some? ==> Report.NoNewline(inv.message.value)) {
      assert Report.NoNewline(repr(inv.exprs[0])) && Report.NoNewline(repr(inv.exprs[o.position]));
      Report.DiagnosticLines(o.position, o.left, o.right, o.message);
    }
  }

  /** A passing N-value call made exactly the N-1 comparisons `e0 == e_i`, so
      an `==` crediting both operands leaves the counters summing to 4 for
      three values and 10 for six. */
  lemma MinimumComparisons<T>(values: seq<T>, eq: (T, T) -> bool, repr: T -> string)
    requires |values| == 3 || |values| == 6
    requires AllMatchAnchor(eq, values)
    ensures var r := AssertAllEq(Invocation(values, false, false, None), eq, repr);
      && r.Some? && r.value.outcome.Pass?
      && Comparisons(r.value.trace) == Star(|values| - 1)
      && TotalCredits(r.value.trace, |values|) == (if |values| == 3 then 4 else 10)
  {
    var r := AssertAllEq(Invocation(values, false, false, None), eq, repr).value;
    ComparisonsMade(eq, repr, values, None, r);
    ComparisonCredits(eq, repr, values, None, r);
  }

  /** A list equal to its first value everywhere except at one later position
      `p` (under `==` on integers) fails at `p`, after evaluating and comparing
      nothing beyond it. */
  lemma SingleOutlier(values: seq<int>, p: nat, repr: int -> string)
    requires |values| >= 3 && 1 <= p < |values|
    requires values[p] != values[0]
    requires forall k :: 1 <= k < |values| && k != p ==> values[k] == values[0]
    ensures var r := AssertAllEq(Invocation(values, false, false, None), (a: int, b: int) => a == b, repr);
      && r.Some?
      && r.value.outcome == Fail(p, repr(values[0]), repr(values[p]), None)
      && Evaluated(r.value.trace) == UpTo(p + 1)
  {
    var eq := (a: int, b: int) => a == b;
    var r := AssertAllEq(Invocation(values, false, false, None), eq, repr).value;
    assert !eq(values[0], values[p]);
    FailFast(eq, repr, values, None, r);
  }
}
