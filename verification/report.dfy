/** The `not_eq` formatter of the N-ary comparator (src/lib.rs:44-53 without a
    custom message, src/lib.rs:74-83 with one): the panic payload naming the
    failing position and the two debug renderings. Its partners are a line
    splitter and a reader of the header, which recover the layout and the
    position from the rendered text. */
module Report {
  import opened Options
  import Decimal

  const Header: string := "equality assertion failed at position 0 and "

  /** `" ".repeat(width)`: the run of spaces in front of the `0:` label. */
  function Pad(width: nat): (p: string)
    ensures |p| == width
    ensures forall j :: 0 <= j < |p| ==> p[j] == ' '
  {
    if width == 0 then "" else " " + Pad(width - 1)
  }

  /** First line of the payload: the header naming positions 0 and `index`. */
  function HeaderLine(index: string): string {
    Header + index
  }

  /** Second line: the anchor's debug rendering, labelled `0` behind a pad as
      wide as `index`. */
  function AnchorLine(index: string, left: string): string {
    Pad(|index|) + "0: `" + left + "`,"
  }

  /** Third line: the mismatching value's debug rendering, labelled `index`. */
  function MismatchLine(index: string, right: string): string {
    " " + index + ": `" + right + "`"
  }

  /** The payload without a custom message (src/lib.rs:48-52). */
  function NotEq(i: nat, left: string, right: string): string {
    var index := Decimal.Dec(i);
    HeaderLine(index) + "\n" + AnchorLine(index, left) + "\n" + MismatchLine(index, right)
  }

  /** The payload with a custom message (src/lib.rs:78-82). */
  function NotEqWithMessage(i: nat, left: string, right: string, message: string): string {
    var index := Decimal.Dec(i);
    HeaderLine(index) + "\n" + AnchorLine(index, left) + "\n" + MismatchLine(index, right) + ": " + message
  }

  /** The payload for an optional message, as the two macro arms choose it. */
  function Diagnostic(i: nat, left: string, right: string, message: Option<string>): string {
    match message
    case None => NotEq(i, left, right)
    case Some(m) => NotEqWithMessage(i, left, right, m)
  }

  predicate NoNewline(s: string) {
    forall j :: 0 <= j < |s| ==> s[j] != '\n'
  }

  lemma NoNewlineConcat(a: string, b: string)
    requires NoNewline(a) && NoNewline(b)
    ensures NoNewline(a + b)
  {
  }

  /** The lines of a text, split at every newline character. */
  function SplitLines(s: string): (lines: seq<string>)
    ensures |lines| >= 1
    ensures forall k :: 0 <= k < |lines| ==> NoNewline(lines[k])
  {
    if |s| == 0 then [""]
    else if s[0] == '\n' then [""] + SplitLines(s[1..])
    else
      var rest := SplitLines(s[1..]);
      [[s[0]] + rest[0]] + rest[1..]
  }

  /** A text with no newline is one line. */
  lemma {:induction false} SplitLinesSingle(a: string)
    requires NoNewline(a)
    ensures SplitLines(a) == [a]
    decreases |a|
  {
    if |a| > 0 {
      SplitLinesSingle(a[1..]);
      assert [a[0]] + a[1..] == a;
    }
  }

  /** A newline-free prefix followed by a newline is the first line. */
  lemma {:induction false} SplitLinesCons(a: string, b: string)
    requires NoNewline(a)
    ensures SplitLines(a + "\n" + b) == [a] + SplitLines(b)
    decreases |a|
  {
    var s := a + "\n" + b;
    if |a| == 0 {
      assert s[0] == '\n' && s[1..] == b;
    } else {
      assert s[0] == a[0] && s[1..] == a[1..] + "\n" + b;
      SplitLinesCons(a[1..], b);
      assert [a[0]] + a[1..] == a;
    }
  }

  /** The failing position named by a payload: the decimal number that follows
      the header on the first line, if the text has that shape. */
  function ReportedPosition(d: string): Option<nat> {
    if |d| < |Header| || d[..|Header|] != Header then None
    else
      var line := SplitLines(d[|Header|..])[0];
      if |line| == 0 || !Decimal.AllDigits(line) then None else Some(Decimal.Parse(line))
  }

  /** A text made of the header, a decimal rendering and a newline names the
      rendered number, whatever follows the newline. */
  lemma ReportedPositionOf(index: string, rest: string)
    requires 1 <= |index| && Decimal.AllDigits(index)
    ensures ReportedPosition(Header + (index + "\n" + rest)) == Some(Decimal.Parse(index))
  {
    var d := Header + (index + "\n" + rest);
    assert d[..|Header|] == Header;
    assert d[|Header|..] == index + "\n" + rest;
    SplitLinesCons(index, rest);
  }

  /** What the optional custom message adds at the end of the third line. */
  function Suffix(message: Option<string>): string {
    if message.Some? then ": " + message.value else ""
  }

  /** Every payload is its header line, a newline and the rest. */
  lemma DiagnosticSplit(i: nat, left: string, right: string, message: Option<string>)
    ensures var index := Decimal.Dec(i);
      Diagnostic(i, left, right, message)
        == HeaderLine(index) + "\n" + (AnchorLine(index, left) + "\n" + (MismatchLine(index, right) + Suffix(message)))
  {
  }

  /** The header of every payload names position 0 and position `i`, whatever
      the debug renderings and the message contain. */
  lemma HeaderNamesPosition(i: nat, left: string, right: string, message: Option<string>)
    ensures ReportedPosition(Diagnostic(i, left, right, message)) == Some(i)
  {
    var index := Decimal.Dec(i);
    var rest := AnchorLine(index, left) + "\n" + (MismatchLine(index, right) + Suffix(message));
    DiagnosticSplit(i, left, right, message);
    assert HeaderLine(index) + "\n" + rest == Header + (index + "\n" + rest);
    ReportedPositionOf(index, rest);
    Decimal.ParseDec(i);
  }

  /** The three-line layout: the header, the anchor's rendering behind a pad as
      wide as the decimal position, and the mismatching value's rendering behind
      its position, followed by `: message` when one is given. It holds when the
      renderings and the message are themselves single lines. */
  lemma DiagnosticLines(i: nat, left: string, right: string, message: Option<string>)
    requires NoNewline(left) && NoNewline(right)
    requires message.Some? ==> NoNewline(message.value)
    ensures var index := Decimal.Dec(i);
      SplitLines(Diagnostic(i, left, right, message)) ==
      [ Header + index,
        Pad(|index|) + "0: `" + left + "`,",
        " " + index + ": `" + right + "`" + Suffix(message) ]
  {
    var index := Decimal.Dec(i);
    var l1 := HeaderLine(index);
    var l2 := AnchorLine(index, left);
    var l3 := MismatchLine(index, right) + Suffix(message);
    assert NoNewline(index);
    NoNewlineConcat(Header, index);
    NoNewlineConcat(Pad(|index|), "0: `");
    NoNewlineConcat(Pad(|index|) + "0: `", left);
    NoNewlineConcat(Pad(|index|) + "0: `" + left, "`,");
    NoNewlineConcat(" ", index);
    NoNewlineConcat(" " + index, ": `");
    NoNewlineConcat(" " + index + ": `", right);
    NoNewlineConcat(" " + index + ": `" + right, "`");
    if message.Some? {
      NoNewlineConcat(": ", message.value);
    }
    NoNewlineConcat(MismatchLine(index, right), Suffix(message));
    DiagnosticSplit(i, left, right, message);
    SplitLinesCons(l1, l2 + "\n" + l3);
    SplitLinesCons(l2, l3);
    SplitLinesSingle(l3);
  }

  /** Column facts of the second and third lines for a label `index`. */
  lemma LineColumns(index: string, left: string, right: string, suffix: string)
    ensures var w := |index|;
      var l2 := AnchorLine(index, left);
      var l3 := MismatchLine(index, right) + suffix;
      && |l2| > w + 1 && |l3| > w + 1
      && (forall j :: 0 <= j < w ==> l2[j] == ' ')
      && l2[w] == '0' && l2[w + 1] == ':'
      && l3[0] == ' ' && l3[1..w + 1] == index && l3[w + 1] == ':'
  {
  }

  /** The two labels line up: on the second line the `0` sits right before a
      colon at column |dec(i)|+1 after a run of spaces, and on the third line
      `dec(i)` starts at column 1 and ends right before a colon at that same
      column. */
  lemma LabelsAligned(i: nat, left: string, right: string, message: Option<string>)
    requires NoNewline(left) && NoNewline(right)
    requires message.Some? ==> NoNewline(message.value)
    ensures var lines := SplitLines(Diagnostic(i, left, right, message));
      var w := |Decimal.Dec(i)|;
      && |lines| == 3
      && |lines[1]| > w + 1 && |lines[2]| > w + 1
      && (forall j :: 0 <= j < w ==> lines[1][j] == ' ')
      && lines[1][w] == '0' && lines[1][w + 1] == ':'
      && lines[2][0] == ' ' && lines[2][1..w + 1] == Decimal.Dec(i) && lines[2][w + 1] == ':'
  {
    DiagnosticLines(i, left, right, message);
    var index := Decimal.Dec(i);
    LineColumns(index, left, right, Suffix(message));
    assert SplitLines(Diagnostic(i, left, right, message))
      == [HeaderLine(index), AnchorLine(index, left), MismatchLine(index, right) + Suffix(message)];
  }

  /** With a custom message the payload is the message-free payload followed by
      `: ` and the message. */
  lemma MessageAppended(i: nat, left: string, right: string, message: string)
    ensures NotEqWithMessage(i, left, right, message) == NotEq(i, left, right) + ": " + message
  {
  }
}
