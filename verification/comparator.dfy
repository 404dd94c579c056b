/** The N-ary comparator of `assert_all_eq!` (src/lib.rs:37-66 and
    src/lib.rs:68-96): the anchor `e0` is evaluated once, then each tail
    element `e_i` is evaluated and compared `anchor == e_i` in order, a 1-based
    counter being bumped before each comparison; the first mismatch panics with
    the counter as the failing position, forcing the custom message (if any)
    only then.

    `PartialEq` is an arbitrary relation `eq` (no reflexivity or symmetry is
    assumed) and `Debug` an arbitrary rendering `repr`. What the expansion does
    observably is recorded as a trace of events; the panic is the `Fail`
    outcome. */
module Comparator {
  import opened Options

  /** Observable steps of one assertion: evaluating the expression at an index
      of the invocation, one `==` call with the operands' indices, and forcing
      the custom-message closure. */
  datatype Event = Evaluate(index: nat) | Compare(left: nat, right: nat) | FormatMessage

  /** How an assertion ends: it falls through, or it panics naming the
      failing position, the two debug renderings and the custom message. */
  datatype Outcome =
    | Pass
    | Fail(position: nat, left: string, right: string, message: Option<string>)

  datatype Run = Run(outcome: Outcome, trace: seq<Event>)

  // ---------------------------------------------------------------------------
  // The declarative specification

  /** Every tail element equals the anchor, with the anchor on the left. */
  ghost predicate AllMatchAnchor<T>(eq: (T, T) -> bool, values: seq<T>)
    requires |values| >= 1
  {
    forall k :: 1 <= k < |values| ==> eq(values[0], values[k])
  }

  /** `i` is the smallest tail position whose element differs from the anchor. */
  ghost predicate IsFirstMismatch<T>(eq: (T, T) -> bool, values: seq<T>, i: nat)
    requires |values| >= 1
  {
    && 1 <= i < |values|
    && !eq(values[0], values[i])
    && forall k :: 1 <= k < i ==> eq(values[0], values[k])
  }

  /** The events of evaluating the anchor and then walking the tail up to,
      but excluding, index `k`: evaluate `e0`, then for each `j` in `1..k`
      evaluate `e_j` and compare `e0 == e_j`. */
  function Steps(k: nat): seq<Event>
    requires k >= 1
  {
    if k == 1 then [Evaluate(0)] else Steps(k - 1) + [Evaluate(k - 1), Compare(0, k - 1)]
  }

  /** The message closure is called once when the failure path is taken. */
  function Forced(message: Option<string>): seq<Event> {
    if message.Some? then [FormatMessage] else []
  }

  /** What one call of the comparator on `values` must do. */
  ghost predicate Conforms<T>(eq: (T, T) -> bool, repr: T -> string, values: seq<T>,
                              message: Option<string>, r: Run)
    requires |values| >= 1
  {
    && (r.outcome.Pass? <==> AllMatchAnchor(eq, values))
    && (r.outcome.Pass? ==> r.trace == Steps(|values|))
    && (r.outcome.Fail? ==>
          && IsFirstMismatch(eq, values, r.outcome.position)
          && r.outcome.left == repr(values[0])
          && r.outcome.right == repr(values[r.outcome.position])
          && r.outcome.message == message
          && r.trace == Steps(r.outcome.position + 1) + Forced(message))
  }

  /** The specification admits one behaviour only. */
  lemma ConformsUnique<T>(eq: (T, T) -> bool, repr: T -> string, values: seq<T>,
                          message: Option<string>, r1: Run, r2: Run)
    requires |values| >= 1
    requires Conforms(eq, repr, values, message, r1)
    requires Conforms(eq, repr, values, message, r2)
    ensures r1 == r2
  {
  }

  // ---------------------------------------------------------------------------
  // The comparator as a function

  /** The walk over the tail from index `k` on; its trace starts after the
      events for indices below `k`. */
  function Walk<T>(eq: (T, T) -> bool, repr: T -> string, values: seq<T>,
                   message: Option<string>, k: nat): Run
    requires 1 <= k <= |values|
    decreases |values| - k
  {
    if k == |values| then Run(Pass, [])
    else if !eq(values[0], values[k]) then
      Run(Fail(k, repr(values[0]), repr(values[k]), message), [Evaluate(k), Compare(0, k)] + Forced(message))
    else
      var rest := Walk(eq, repr, values, message, k + 1);
      Run(rest.outcome, [Evaluate(k), Compare(0, k)] + rest.trace)
  }

  /** One call of the comparator: evaluate the anchor, then walk the tail. */
  function Check<T>(eq: (T, T) -> bool, repr: T -> string, values: seq<T>,
                    message: Option<string>): Run
    requires |values| >= 2
  {
    var rest := Walk(eq, repr, values, message, 1);
    Run(rest.outcome, [Evaluate(0)] + rest.trace)
  }

  lemma {:induction false} WalkConforms<T>(eq: (T, T) -> bool, repr: T -> string, values: seq<T>,
                                           message: Option<string>, k: nat)
    requires 1 <= k <= |values|
    requires forall j :: 1 <= j < k ==> eq(values[0], values[j])
    ensures var r := Walk(eq, repr, values, message, k);
      Conforms(eq, repr, values, message, Run(r.outcome, Steps(k) + r.trace))
    decreases |values| - k
  {
    var r := Walk(eq, repr, values, message, k);
    if k == |values| {
      assert Steps(k) + r.trace == Steps(k);
    } else if !eq(values[0], values[k]) {
      assert Steps(k) + r.trace == Steps(k + 1) + Forced(message);
    } else {
      var rest := Walk(eq, repr, values, message, k + 1);
      WalkConforms(eq, repr, values, message, k + 1);
      assert Steps(k) + r.trace == Steps(k + 1) + rest.trace;
    }
  }

  /** The functional comparator meets the specification. */
  lemma CheckConforms<T>(eq: (T, T) -> bool, repr: T -> string, values: seq<T>, message: Option<string>)
    requires |values| >= 2
    ensures Conforms(eq, repr, values, message, Check(eq, repr, values, message))
  {
    WalkConforms(eq, repr, values, message, 1);
  }

  // ---------------------------------------------------------------------------
  // The comparator as the expanded loop

  /** The macro expansion with its `b` counter: `b` is bumped before each
      comparison and is the position passed to `not_eq` on a mismatch. */
  method CheckLoop<T>(eq: (T, T) -> bool, repr: T -> string, values: seq<T>,
                      message: Option<string>) returns (r: Run)
    requires |values| >= 2
    ensures Conforms(eq, repr, values, message, r)
    ensures r == Check(eq, repr, values, message)
  {
    var a := values[0];
    var trace := [Evaluate(0)];
    var b := 0;
    while b < |values| - 1
      invariant 0 <= b <= |values| - 1
      invariant trace == Steps(b + 1)
      invariant forall j :: 1 <= j <= b ==> eq(a, values[j])
    {
      b := b + 1;
      var x := values[b];
      trace := trace + [Evaluate(b), Compare(0, b)];
      if !eq(a, x) {
        r := Run(Fail(b, repr(a), repr(x), message), trace + Forced(message));
        CheckConforms(eq, repr, values, message);
        ConformsUnique(eq, repr, values, message, r, Check(eq, repr, values, message));
        return;
      }
    }
    r := Run(Pass, trace);
    CheckConforms(eq, repr, values, message);
    ConformsUnique(eq, repr, values, message, r, Check(eq, repr, values, message));
  }

  // ---------------------------------------------------------------------------
  // What a trace shows

  /** The `==` calls of a trace, as (left operand, right operand) indices, in order. */
  function Comparisons(t: seq<Event>): seq<(nat, nat)> {
    if |t| == 0 then []
    else (if t[0].Compare? then [(t[0].left, t[0].right)] else []) + Comparisons(t[1..])
  }

  /** The indices of the expressions a trace evaluates, in order. */
  function Evaluated(t: seq<Event>): seq<nat> {
    if |t| == 0 then []
    else (if t[0].Evaluate? then [t[0].index] else []) + Evaluated(t[1..])
  }

  /** How often a trace calls the custom-message closure. */
  function Formatted(t: seq<Event>): nat {
    if |t| == 0 then 0 else (if t[0].FormatMessage? then 1 else 0) + Formatted(t[1..])
  }

  /** The star of `c` comparisons: `e0 == e1`, `e0 == e2`, ..., `e0 == ec`. */
  function Star(c: nat): seq<(nat, nat)> {
    seq(c, j requires 0 <= j < c => (0, j + 1))
  }

  /** The indices `0, 1, ..., k-1`. */
  function UpTo(k: nat): seq<nat> {
    seq(k, j requires 0 <= j < k => j)
  }

  lemma {:induction false} TraceConcat(a: seq<Event>, b: seq<Event>)
    ensures Comparisons(a + b) == Comparisons(a) + Comparisons(b)
    ensures Evaluated(a + b) == Evaluated(a) + Evaluated(b)
    ensures Formatted(a + b) == Formatted(a) + Formatted(b)
    decreases |a|
  {
    if |a| > 0 {
      assert (a + b)[1..] == a[1..] + b;
      TraceConcat(a[1..], b);
    } else {
      assert a + b == b;
    }
  }

  /** Walking up to index `k` compares the anchor with `e1 .. e(k-1)` once
      each in order, evaluates `e0 .. e(k-1)` once each in order, and never
      forces the message. */
  lemma {:induction false} StepsShow(k: nat)
    requires k >= 1
    ensures Comparisons(Steps(k)) == Star(k - 1)
    ensures Evaluated(Steps(k)) == UpTo(k)
    ensures Formatted(Steps(k)) == 0
  {
    if k > 1 {
      StepsShow(k - 1);
      TraceConcat(Steps(k - 1), [Evaluate(k - 1), Compare(0, k - 1)]);
      var pair := [Evaluate(k - 1), Compare(0, k - 1)];
      var last := [Compare(0, k - 1)];
      assert pair[1..] == last && last[1..] == [];
      assert Comparisons(last) == [(0, k - 1)] && Evaluated(last) == [] && Formatted(last) == 0;
      assert Comparisons(pair) == [(0, k - 1)];
      assert Evaluated(pair) == [k - 1];
      assert Formatted(pair) == 0;
    }
  }

  /** Comparisons are star-shaped, one per tail element reached: a passing
      call of N values makes exactly the N-1 comparisons `e0 == e_i`, in
      order; a failing call stops after the comparison at the failing
      position `i`, having made `i` comparisons. */
  lemma ComparisonsMade<T>(eq: (T, T) -> bool, repr: T -> string, values: seq<T>,
                           message: Option<string>, r: Run)
    requires |values| >= 1
    requires Conforms(eq, repr, values, message, r)
    ensures r.outcome.Pass? ==> Comparisons(r.trace) == Star(|values| - 1)
    ensures r.outcome.Fail? ==> Comparisons(r.trace) == Star(r.outcome.position)
  {
    if r.outcome.Pass? {
      StepsShow(|values|);
    } else {
      var i := r.outcome.position;
      StepsShow(i + 1);
      TraceConcat(Steps(i + 1), Forced(message));
      if message.Some? {
        assert Comparisons([FormatMessage]) == [];
      }
    }
  }

  /** Fail-fast: the expressions are evaluated once each, left to right, and a
      failing call evaluates nothing after the failing position. */
  lemma FailFast<T>(eq: (T, T) -> bool, repr: T -> string, values: seq<T>,
                    message: Option<string>, r: Run)
    requires |values| >= 1
    requires Conforms(eq, repr, values, message, r)
    ensures r.outcome.Pass? ==> Evaluated(r.trace) == UpTo(|values|)
    ensures r.outcome.Fail? ==> Evaluated(r.trace) == UpTo(r.outcome.position + 1)
  {
    if r.outcome.Pass? {
      StepsShow(|values|);
    } else {
      var i := r.outcome.position;
      StepsShow(i + 1);
      TraceConcat(Steps(i + 1), Forced(message));
      if message.Some? {
        assert Evaluated([FormatMessage]) == [];
      }
    }
  }

  /** The message closure is called exactly once when a call with a message
      fails, and never otherwise. */
  lemma LazyMessage<T>(eq: (T, T) -> bool, repr: T -> string, values: seq<T>,
                       message: Option<string>, r: Run)
    requires |values| >= 1
    requires Conforms(eq, repr, values, message, r)
    ensures Formatted(r.trace) == (if r.outcome.Fail? && message.Some? then 1 else 0)
  {
    if r.outcome.Pass? {
      StepsShow(|values|);
    } else {
      var i := r.outcome.position;
      StepsShow(i + 1);
      TraceConcat(Steps(i + 1), Forced(message));
      if message.Some? {
        assert Formatted([FormatMessage]) == 1;
      }
    }
  }

  // ---------------------------------------------------------------------------
  // Comparison credits: an `==` that bumps a counter on each of its operands

  /** What one event adds to the counter of the value at index `j`. */
  function CreditOf(e: Event, j: nat): nat {
    if e.Compare? then (if e.left == j then 1 else 0) + (if e.right == j then 1 else 0) else 0
  }

  /** The counter of the value at index `j` after a trace. */
  function Credits(t: seq<Event>, j: nat): nat {
    if |t| == 0 then 0 else CreditOf(t[0], j) + Credits(t[1..], j)
  }

  /** The sum of the counters of the values at indices `0 .. n-1`. */
  function TotalCredits(t: seq<Event>, n: nat): nat {
    if n == 0 then 0 else TotalCredits(t, n - 1) + Credits(t, n - 1)
  }

  /** The sum over `0 .. n-1` of what one event adds. */
  function EventCredits(e: Event, n: nat): nat {
    if n == 0 then 0 else EventCredits(e, n - 1) + CreditOf(e, n - 1)
  }

  /** One event credits each of its operands that is among the first `n` values. */
  lemma {:induction false} EventCreditsCount(e: Event, n: nat)
    ensures EventCredits(e, n) ==
      if e.Compare? then (if e.left < n then 1 else 0) + (if e.right < n then 1 else 0) else 0
  {
    if n > 0 {
      EventCreditsCount(e, n - 1);
    }
  }

  lemma {:induction false} TotalCreditsEmpty(n: nat)
    ensures TotalCredits([], n) == 0
  {
    if n > 0 {
      TotalCreditsEmpty(n - 1);
    }
  }

  lemma {:induction false} TotalCreditsCons(e: Event, t: seq<Event>, n: nat)
    ensures TotalCredits([e] + t, n) == EventCredits(e, n) + TotalCredits(t, n)
  {
    if n > 0 {
      TotalCreditsCons(e, t, n - 1);
      assert ([e] + t)[1..] == t;
    }
  }

  /** When every comparison's operands are among the first `n` values, the
      counters of those values sum to twice the number of comparisons. */
  lemma {:induction false} CreditsTwicePerComparison(t: seq<Event>, n: nat)
    requires forall j :: 0 <= j < |t| && t[j].Compare? ==> t[j].left < n && t[j].right < n
    ensures TotalCredits(t, n) == 2 * |Comparisons(t)|
    decreases |t|
  {
    if |t| == 0 {
      TotalCreditsEmpty(n);
    } else {
      assert t == [t[0]] + t[1..];
      TotalCreditsCons(t[0], t[1..], n);
      EventCreditsCount(t[0], n);
      assert forall j :: 0 <= j < |t[1..]| ==> t[1..][j] == t[j + 1];
      CreditsTwicePerComparison(t[1..], n);
    }
  }

  lemma {:induction false} StepsOperands(k: nat)
    requires k >= 1
    ensures forall j :: 0 <= j < |Steps(k)| && Steps(k)[j].Compare? ==>
      Steps(k)[j].left == 0 && Steps(k)[j].right < k
  {
    if k > 1 {
      StepsOperands(k - 1);
    }
  }

  /** With an `==` that bumps a counter on both of its operands, the counters
      of the N values sum to 2*(N-1) after a passing call, and to 2*i after a
      call failing at position `i`. */
  lemma ComparisonCredits<T>(eq: (T, T) -> bool, repr: T -> string, values: seq<T>,
                             message: Option<string>, r: Run)
    requires |values| >= 1
    requires Conforms(eq, repr, values, message, r)
    ensures r.outcome.Pass? ==> TotalCredits(r.trace, |values|) == 2 * (|values| - 1)
    ensures r.outcome.Fail? ==> TotalCredits(r.trace, |values|) == 2 * r.outcome.position
  {
    ComparisonsMade(eq, repr, values, message, r);
    if r.outcome.Pass? {
      StepsOperands(|values|);
    } else {
      var i := r.outcome.position;
      StepsOperands(i + 1);
      var t := r.trace;
      assert forall j :: 0 <= j < |t| && t[j].Compare? ==> t[j].left < |values| && t[j].right < |values| by {
        forall j | 0 <= j < |t| && t[j].Compare?
          ensures t[j].left < |values| && t[j].right < |values|
        {
          if j < |Steps(i + 1)| {
            assert t[j] == Steps(i + 1)[j];
          }
        }
      }
    }
    CreditsTwicePerComparison(r.trace, |values|);
  }
}
