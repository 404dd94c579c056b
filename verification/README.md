# assert_all_eq, modelled in Dafny

A model of the `assert_all_eq!` macro and its `debug_assert_all_eq!` wrapper
(`src/lib.rs`). The macro asserts that two or more expressions are equal to
the first one. It uses a star of comparisons `e0 == e_i`, stops at the first
mismatch, and reports that mismatch in an aligned, three-line panic message.
A custom message may follow a semicolon; it is formatted only when the
assertion fails.

The project has five modules:

- `Options` (`options.dfy`): the optional value.
- `Decimal` (`decimal.dfy`): the decimal rendering of the failing position (`format!("{}", i)`) and its reading back.
- `Report` (`report.dfy`): the two `not_eq` formatters. It also has a line splitter and a header reader, so that the layout can be stated about the rendered text.
- `Comparator` (`comparator.dfy`): the N-ary arm.
  - `Conforms` is a declarative specification.
  - `Check` is a functional model and `CheckLoop` is the expanded loop with its `b` counter.
  - Lemmas cover comparisons, fail-fast, the lazy message and comparison credits.
- `Dispatch` (`dispatch.dfy`): the macro arms as a function from an invocation to its expansion. It also holds the standard `assert_eq!` primitive, the whole `assert_all_eq!`, and `debug_assert_all_eq!`.

Host mechanisms become plain values:

- `PartialEq` is an arbitrary relation `eq: (T, T) -> bool`. It need not be reflexive or symmetric.
- `Debug` is an arbitrary `repr: T -> string`.
- A custom message is the string its `format!` would produce.
- A panic is the outcome `Fail(position, left, right, message)`.
- What the expansion does observably is a trace of events. `Evaluate(k)` evaluates expression `k`. `Compare(0, k)` is one `==` call. `FormatMessage` calls the message closure.

## Model

| member | source | states |
|---|---|---|
| Decimal.Dec | src/lib.rs:48 | the rendering of a position is a non-empty string of digits whose first digit is `0` exactly when the position is 0 |
| Decimal.ParseDec | src/lib.rs:48 | reading the rendering back yields the rendered number (round trip) |
| Decimal.DecWidth | src/lib.rs:48-49 | the rendering is exactly as long as the number of decimal digits: 10^(w-1) <= i < 10^w |
| Report.Pad | src/lib.rs:49 | the pad has exactly the requested width and consists of spaces only |
| Report.NotEq | src/lib.rs:44-53 | the payload without a custom message; its contract is stated by Report.HeaderNamesPosition, Report.DiagnosticLines and Report.LabelsAligned |
| Report.NotEqWithMessage | src/lib.rs:74-83 | the payload with a custom message; its contract is stated by Report.HeaderNamesPosition, Report.DiagnosticLines, Report.LabelsAligned and Report.MessageAppended |
| Report.Diagnostic | src/lib.rs:59 | the arm's choice of formatter: without a message the one at lines 44-53, with one the one at lines 74-83 (line 89); its contract is stated by the same lemmas |
| Report.HeaderNamesPosition | src/lib.rs:50 | the first line of every payload is the header followed by the failing position, which reads back as that position whatever the renderings and message are |
| Report.DiagnosticLines | src/lib.rs:48-52 | with single-line renderings and message, the payload splits into exactly three lines: the header with `i`, the pad with `0:` and the anchor's rendering, and `i:` with the mismatch's rendering plus `: message` if one is given |
| Report.LabelsAligned | src/lib.rs:49-52 | the colon after `0` on line two and the colon after `i` on line three sit in the same column, `|dec(i)|+1`; line two starts with `|dec(i)|` spaces and line three carries `dec(i)` right before its colon |
| Report.MessageAppended | src/lib.rs:80-82 | the payload with a message is the message-free payload followed by `: ` and the message |
| Comparator.Walk | src/lib.rs:54-63 | the walk over the tail from a given index: its contract is stated by Comparator.CheckConforms (through the lemma WalkConforms) |
| Comparator.Check | src/lib.rs:37-66 | the functional N-ary comparator, anchor evaluated once then the walk; its contract is stated by Comparator.CheckConforms |
| Comparator.CheckConforms | src/lib.rs:39-63 | the functional comparator meets the specification. It passes iff every tail element equals the anchor (anchor on the left). Otherwise it fails at the smallest mismatching position with the anchor's and that element's renderings and the message. Its trace is exactly the evaluations and comparisons up to that point, plus one message call on failure. |
| Comparator.CheckLoop | src/lib.rs:39-63 | the loop with the counter bumped before each comparison meets the same specification and computes what the functional comparator computes |
| Comparator.ComparisonsMade | src/lib.rs:54-63 | comparisons are star-shaped `e0 == e_i`, in increasing order, one per tail element reached: N-1 on success, `i` when failing at `i` |
| Comparator.FailFast | src/lib.rs:54-63 | each expression is evaluated once, left to right; a call failing at `i` evaluates no expression after `i` |
| Comparator.LazyMessage | src/lib.rs:72-89 | the message closure is called exactly once when a call with a message fails, and never on success or without a message |
| Comparator.ComparisonCredits | src/lib.rs:247-275 | with an `==` that credits both operands, the counters sum to 2*(N-1) after a passing call and 2*i after a call failing at `i` |
| Comparator.CreditsTwicePerComparison | src/lib.rs:247-251 | when all operands are among the first n values, the credits of those values total twice the number of comparisons |
| Dispatch.Expand | src/lib.rs:28-37 | an invocation is accepted iff it has at least two expressions, a message only after `;`, and for three or more expressions without a message no trailing comma. Two expressions reach `assert_eq!` with the same operands and message. Three or more reach the N-ary comparator with all values and the message; the `;` and `,; msg` arms rewrite first. |
| Dispatch.AssertEqPrimitive | src/lib.rs:28-33 | the two-value path passes iff `left == right`, after evaluating both and comparing once, and otherwise fails with both renderings and the message |
| Dispatch.Execute | src/lib.rs:28-37 | running an expansion: two values go to `assert_eq!`, more to the N-ary comparator; either way the run meets the comparator specification for the expansion's operands and message |
| Dispatch.AssertAllEq | src/lib.rs:27-97 | rejected exactly when no arm accepts; otherwise behaves as the comparator specification demands of the invocation's values and message |
| Dispatch.DebugAssertAllEq | src/lib.rs:127-129 | a malformed invocation is rejected whatever the flag. With the flag off, an accepted invocation passes with no evaluation, comparison or message call. With it on, it is `assert_all_eq!` on the same tokens. |
| Dispatch.SeparatorsIrrelevant | src/lib.rs:28-36 | two accepted invocations differing only in trailing separators expand alike and behave alike |
| Dispatch.TwoValueDelegation | src/lib.rs:28-33 | the two-value primitive and the N-ary comparator on two values have the same outcome, renderings, message and trace |
| Dispatch.FailureReport | src/lib.rs:44-59 | a failing N-ary call reports the first mismatching position in its header. With single-line renderings and message, its two labelled lines show exactly the anchor's and that element's renderings. |
| Dispatch.MinimumComparisons | src/lib.rs:228-276 | a passing call over three or six values makes the N-1 star comparisons, so counters crediting both operands sum to 4 and 10 |
| Dispatch.SingleOutlier | src/lib.rs:210-224 | a list that equals its first value everywhere but at one later position `p` fails at `p` and evaluates nothing after it |

## Trailing separators

For three or more expressions, no arm accepts `a, b, c,` or `a, b, c,;` without a message (src/lib.rs:35-37, 68). A trailing `,` or `,;` without a message is accepted only for two expressions (src/lib.rs:30-31). `Accepted` and `Expand` reject the other forms.

## Left out

- The `Debug` rendering and the `format!` engine: they are the parameters `repr` and the message string. Their output is not visible in this crate.
- AssertEqPrimitive: the message text of the standard `assert_eq!` is not modelled, because it is defined in the standard library, not in this crate.
- Dispatch.TwoValueDelegation: the standard `assert_eq!` panics with its own text, which names `left` and `right` and no position; here it is reported as `Fail(1, …)` with both renderings and the message, and the equality with the N-ary comparator holds for that abstract failure only. The payload layout of `Report` is proved for the N-ary arms only.
- Panic and unwinding: a failure is the `Fail` outcome, and nothing runs after it.
- Side effects of evaluating an expression or calling `==`: they are recorded as trace events only. The value each expression yields is fixed in advance, so values that depend on earlier side effects are not modelled.
- The `usize` counter `b`: it is an unbounded integer. It cannot overflow, since it never exceeds the number of expressions written in the source.
- The contents of the message tokens: any message is accepted. A `format!` that would fail to compile is not modelled.
- Macro hygiene, type inference, borrows and lifetimes: for example the slice test at lines 187-194. Values of mixed types that compare across types are not modelled either; all values share one type `T`.
- The nightly feature gate on line 1: it is outside the logic.
- The `cfg!(debug_assertions)` build switch: it is the boolean parameter `debugAssertions`.
- The test's `RefCell` comparison counters: their effect is the `Credits` function over the trace.
