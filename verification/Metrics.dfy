// The text form of a labelled Prometheus sample, and an unescaping reader that inverts it.

module Metrics {
  import opened Prelude
  import opened Text

  type Label = (string, string)

  function EscapedChar(c: char): string {
    if c == '\\' then ['\\', '\\']
    else if c == '"' then ['\\', '"']
    else if c == '\n' then ['\\', 'n']
    else [c]
  }

  function Escaped(value: string): string {
    if value == "" then "" else EscapedChar(value[0]) + Escaped(value[1..])
  }

  function LabelText(l: Label): string {
    l.0 + "=\"" + Escaped(l.1) + "\""
  }

  function LabelsText(labels: seq<Label>): string {
    if labels == [] then ""
    else if |labels| == 1 then LabelText(labels[0])
    else LabelText(labels[0]) + "," + LabelsText(labels[1..])
  }

  datatype Sample = Sample(name: string, labels: seq<Label>, value: string)

  function Line(s: Sample): string {
    s.name + "{" + LabelsText(s.labels) + "} " + s.value + "\n"
  }

  // ---------- The printer ----------

  lemma {:induction false} EscapedSnoc(value: string, c: char)
    ensures Escaped(value + [c]) == Escaped(value) + EscapedChar(c)
  {
    if value == "" {
      assert value + [c] == [c] && [c][1..] == "";
    } else {
      assert (value + [c])[0] == value[0] && (value + [c])[1..] == value[1..] + [c];
      EscapedSnoc(value[1..], c);
    }
  }

  lemma {:induction false} LabelsSnoc(labels: seq<Label>, l: Label)
    ensures LabelsText(labels + [l]) == LabelsText(labels) + (if labels == [] then "" else ",") + LabelText(l)
  {
    if labels == [] {
      assert labels + [l] == [l];
    } else {
      assert (labels + [l])[0] == labels[0] && (labels + [l])[1..] == labels[1..] + [l];
      LabelsSnoc(labels[1..], l);
      if |labels| == 1 {
        assert labels[1..] == [];
      }
    }
  }

  lemma LabelsStep(labels: seq<Label>, i: nat)
    requires i < |labels|
    ensures LabelsText(labels[..i + 1]) == LabelsText(labels[..i]) + (if i > 0 then "," else "") + LabelText(labels[i])
  {
    LabelsSnoc(labels[..i], labels[i]);
    assert labels[..i + 1] == labels[..i] + [labels[i]];
  }

  lemma AppendedLabel(start: string, before: string, sep: string, name: string, value: string)
    ensures start + before + sep + name + "=\"" + value + "\"" ==
            start + (before + sep + (name + "=\"" + value + "\""))
    ensures start + before + "" == start + before
  {
  }

  lemma AppendedLine(start: string, name: string, labels: string, value: string)
    ensures start + name + "{" + labels + "} " + value + "\n" == start + (name + "{" + labels + "} " + value + "\n")
  {
  }

  class Output {
    var text: string

    constructor ()
      ensures text == ""
    {
      text := "";
    }

    /** `append_escaped_label_value`. */
    method AppendEscapedLabelValue(value: string)
      modifies this
      ensures text == old(text) + Escaped(value)
    {
      for i := 0 to |value|
        invariant text == old(text) + Escaped(value[..i])
      {
        EscapedSnoc(value[..i], value[i]);
        assert value[..i + 1] == value[..i] + [value[i]];
        match value[i] {
          case '\\' => text := text + "\\\\";
          case '"' => text := text + "\\\"";
          case '\n' => text := text + "\\n";
          case c => text := text + [c];
        }
      }
      assert value[..|value|] == value;
    }

    /** `append_labeled_metric`. */
    method AppendLabeledMetric(name: string, labels: seq<Label>, value: string)
      modifies this
      ensures text == old(text) + Line(Sample(name, labels, value))
    {
      text := text + name;
      text := text + "{";
      ghost var start := text;
      for i := 0 to |labels|
        invariant text == start + LabelsText(labels[..i])
      {
        LabelsStep(labels, i);
        AppendedLabel(start, LabelsText(labels[..i]), if i > 0 then "," else "", labels[i].0, Escaped(labels[i].1));
        if i > 0 {
          text := text + ",";
        }
        text := text + labels[i].0;
        text := text + "=\"";
        AppendEscapedLabelValue(labels[i].1);
        text := text + "\"";
      }
      assert labels[..|labels|] == labels;
      AppendedLine(old(text), name, LabelsText(labels), value);
      text := text + "} ";
      text := text + value;
      text := text + "\n";
    }
  }

  // ---------- The reader ----------

  function Unescape(c: char): Option<char> {
    if c == '\\' then Some('\\') else if c == '"' then Some('"') else if c == 'n' then Some('\n') else None
  }

  /** A label value up to its closing quote, and what follows the quote. */
  function ReadValue(s: string): (r: Option<(string, string)>)
    ensures r.Some? ==> |r.value.1| < |s|
  {
    if s == "" || s[0] == '\n' then None
    else if s[0] == '"' then Some(("", s[1..]))
    else if s[0] == '\\' then
      if |s| == 1 || Unescape(s[1]).None? then None
      else
        var rest := ReadValue(s[2..]);
        if rest.None? then None else Some(([Unescape(s[1]).value] + rest.value.0, rest.value.1))
    else
      var rest := ReadValue(s[1..]);
      if rest.None? then None else Some(([s[0]] + rest.value.0, rest.value.1))
  }

  /** One `name="value"`, and what follows it. */
  function ReadLabel(s: string): (r: Option<(Label, string)>)
    ensures r.Some? ==> |r.value.1| < |s|
  {
    match SplitOnce(s, '=')
    case None => None
    case Some((name, rest)) =>
      if rest == "" || rest[0] != '"' then None
      else
        match ReadValue(rest[1..])
        case None => None
        case Some((value, after)) => Some(((name, value), after))
  }

  /** A non-empty list of labels up to its closing brace, and what follows the brace. */
  function ReadLabels(s: string): Option<(seq<Label>, string)>
    decreases |s|
  {
    match ReadLabel(s)
    case None => None
    case Some((l, rest)) =>
      if rest == "" then None
      else if rest[0] == '}' then Some(([l], rest[1..]))
      else if rest[0] == ',' then
        match ReadLabels(rest[1..])
        case None => None
        case Some((more, after)) => Some(([l] + more, after))
      else None
  }

  function ReadBraces(s: string): Option<(seq<Label>, string)> {
    if s != "" && s[0] == '}' then Some(([], s[1..])) else ReadLabels(s)
  }

  /** A whole line: a name, labels in braces, a space, a value and the final newline. */
  function ReadLine(s: string): Option<Sample> {
    match SplitOnce(s, '{')
    case None => None
    case Some((name, rest)) =>
      match ReadBraces(rest)
      case None => None
      case Some((labels, after)) =>
        if |after| < 2 || after[0] != ' ' || after[|after| - 1] != '\n' || '\n' in after[1..|after| - 1] then None
        else Some(Sample(name, labels, after[1..|after| - 1]))
  }

  // ---------- Reading back what was printed ----------

  /** A metric or label name, as the exposition format restricts them. */
  predicate IsName(name: string) {
    && name != ""
    && forall c | c in name :: 'a' <= c <= 'z' || 'A' <= c <= 'Z' || '0' <= c <= '9' || c == '_' || c == ':'
  }

  /** Names are names, label values are arbitrary, and the value is on one line. */
  predicate Printable(s: Sample) {
    IsName(s.name) && (forall l | l in s.labels :: IsName(l.0)) && '\n' !in s.value
  }

  lemma {:induction false} ValueRoundTrip(value: string, after: string)
    ensures ReadValue(Escaped(value) + ['"'] + after) == Some((value, after))
  {
    if value == "" {
      assert Escaped(value) + ['"'] + after == ['"'] + after;
      assert (['"'] + after)[1..] == after;
    } else {
      var rest := Escaped(value[1..]) + ['"'] + after;
      ValueRoundTrip(value[1..], after);
      ReadEscapedChar(value[0], rest, value[1..], after);
      assert Escaped(value) + ['"'] + after == EscapedChar(value[0]) + rest;
      assert value == [value[0]] + value[1..];
    }
  }

  lemma ReadEscapedChar(c: char, rest: string, value: string, after: string)
    requires ReadValue(rest) == Some((value, after))
    ensures ReadValue(EscapedChar(c) + rest) == Some(([c] + value, after))
  {
    var s := EscapedChar(c) + rest;
    assert s[|EscapedChar(c)|..] == rest;
  }

  lemma ReadLabelStep(name: string, rest: string, value: string, after: string)
    requires '=' !in name && ReadValue(rest) == Some((value, after))
    ensures ReadLabel(name + ['='] + (['"'] + rest)) == Some(((name, value), after))
  {
    SplitOnceAt(name, '=', ['"'] + rest);
    assert (['"'] + rest)[1..] == rest;
  }

  lemma LabelTextSplits(name: string, value: string, after: string)
    ensures name + "=\"" + value + "\"" + after == name + ['='] + (['"'] + (value + ['"'] + after))
  {
  }

  lemma LabelRoundTrip(l: Label, after: string)
    requires IsName(l.0)
    ensures ReadLabel(LabelText(l) + after) == Some((l, after))
  {
    ValueRoundTrip(l.1, after);
    ReadLabelStep(l.0, Escaped(l.1) + ['"'] + after, l.1, after);
    LabelTextSplits(l.0, Escaped(l.1), after);
  }

  lemma ReadLastLabel(s: string, l: Label, after: string)
    requires ReadLabel(s) == Some((l, ['}'] + after))
    ensures ReadLabels(s) == Some(([l], after))
  {
    assert (['}'] + after)[1..] == after;
  }

  lemma ReadMoreLabels(s: string, l: Label, rest: string, more: seq<Label>, after: string)
    requires ReadLabel(s) == Some((l, [','] + rest)) && ReadLabels(rest) == Some((more, after))
    ensures ReadLabels(s) == Some(([l] + more, after))
  {
    assert ([','] + rest)[1..] == rest;
  }

  lemma LabelsTextSplits(first: string, rest: string, after: string)
    ensures first + "," + rest + ['}'] + after == first + ([','] + (rest + ['}'] + after))
    ensures first + ['}'] + after == first + (['}'] + after)
  {
  }

  lemma {:induction false} LabelsRoundTrip(labels: seq<Label>, after: string)
    requires labels != [] && forall l | l in labels :: IsName(l.0)
    ensures ReadLabels(LabelsText(labels) + ['}'] + after) == Some((labels, after))
    decreases |labels|
  {
    var l, more := labels[0], labels[1..];
    assert labels == [l] + more;
    var text := LabelsText(labels) + ['}'] + after;
    LabelsTextSplits(LabelText(l), LabelsText(more), after);
    if more == [] {
      assert labels == [l];
      LabelRoundTrip(l, ['}'] + after);
      ReadLastLabel(text, l, after);
    } else {
      var rest := LabelsText(more) + ['}'] + after;
      LabelRoundTrip(l, [','] + rest);
      LabelsRoundTrip(more, after);
      ReadMoreLabels(text, l, rest, more, after);
    }
  }

  lemma LabelsStart(labels: seq<Label>, after: string)
    requires labels != [] && IsName(labels[0].0)
    ensures (LabelsText(labels) + ['}'] + after)[0] != '}'
  {
    assert LabelsText(labels)[0] == labels[0].0[0];
    assert labels[0].0[0] in labels[0].0;
  }

  lemma BracesRoundTrip(labels: seq<Label>, after: string)
    requires forall l | l in labels :: IsName(l.0)
    ensures ReadBraces(LabelsText(labels) + ['}'] + after) == Some((labels, after))
  {
    if labels == [] {
      assert LabelsText(labels) + ['}'] + after == ['}'] + after;
      assert (['}'] + after)[1..] == after;
    } else {
      LabelsStart(labels, after);
      LabelsRoundTrip(labels, after);
    }
  }

  lemma LineSplits(name: string, labels: string, value: string)
    ensures name + "{" + labels + "} " + value + "\n" == name + ['{'] + (labels + ['}'] + ([' '] + value + ['\n']))
  {
  }

  lemma ReadLineStep(name: string, labels: seq<Label>, rest: string, value: string)
    requires '{' !in name && '\n' !in value
    requires ReadBraces(rest) == Some((labels, [' '] + value + ['\n']))
    ensures ReadLine(name + ['{'] + rest) == Some(Sample(name, labels, value))
  {
    SplitOnceAt(name, '{', rest);
    var after := [' '] + value + ['\n'];
    assert after[1..|after| - 1] == value;
  }

  /** For label values over arbitrary characters, the reader recovers the whole sample. */
  lemma LineRoundTrip(s: Sample)
    requires Printable(s)
    ensures ReadLine(Line(s)) == Some(s)
  {
    var after := [' '] + s.value + ['\n'];
    BracesRoundTrip(s.labels, after);
    ReadLineStep(s.name, s.labels, LabelsText(s.labels) + ['}'] + after, s.value);
    LineSplits(s.name, LabelsText(s.labels), s.value);
  }

  /** Distinct samples give distinct lines. */
  lemma LinesAreInjective(s: Sample, t: Sample)
    requires Printable(s) && Printable(t) && Line(s) == Line(t)
    ensures s == t
  {
    LineRoundTrip(s);
    LineRoundTrip(t);
  }

  /** `label_with_extra`: the bucket label is read back after the labels of the histogram. */
  lemma BucketLineReads(name: string, labels: seq<Label>, bound: string, count: string)
    requires Printable(Sample(name + "_bucket", labels, count))
    ensures var s := Sample(name + "_bucket", labels + [("le", bound)], count);
            ReadLine(Line(s)) == Some(s)
  {
    assert IsName("le");
    LineRoundTrip(Sample(name + "_bucket", labels + [("le", bound)], count));
  }

  // ---------- Whatever is read is what was printed ----------

  lemma {:induction false} ValueReadExactly(s: string)
    ensures ReadValue(s).Some? ==> s == Escaped(ReadValue(s).value.0) + ['"'] + ReadValue(s).value.1
    decreases |s|
  {
    if ReadValue(s).Some? {
      var (value, after) := ReadValue(s).value;
      if s[0] == '"' {
        assert s == [s[0]] + s[1..];
      } else {
        var n := if s[0] == '\\' then 2 else 1;
        ValueReadExactly(s[n..]);
        assert value[1..] == ReadValue(s[n..]).value.0;
        assert EscapedChar(value[0]) == s[..n];
        assert s == s[..n] + s[n..];
      }
    }
  }

  lemma LabelReadExactly(s: string)
    ensures ReadLabel(s).Some? ==> s == LabelText(ReadLabel(s).value.0) + ReadLabel(s).value.1
  {
    if ReadLabel(s).Some? {
      var (name, rest) := SplitOnce(s, '=').value;
      var (value, after) := ReadValue(rest[1..]).value;
      ValueReadExactly(rest[1..]);
      assert rest == ['"'] + rest[1..];
      LabelTextSplits(name, Escaped(value), after);
    }
  }

  lemma ReadLabelsCases(s: string)
    requires ReadLabels(s).Some?
    ensures var (labels, after) := ReadLabels(s).value;
            && ReadLabel(s).Some? && labels != [] && labels[0] == ReadLabel(s).value.0
            && var rest := ReadLabel(s).value.1;
               || (labels == [labels[0]] && rest == ['}'] + after)
               || (rest != "" && rest == [','] + rest[1..] && |rest[1..]| < |s| && ReadLabels(rest[1..]) == Some((labels[1..], after)))
  {
    var rest := ReadLabel(s).value.1;
    assert rest == [rest[0]] + rest[1..];
  }

  lemma {:induction false} LabelsReadExactly(s: string)
    ensures ReadLabels(s).Some? ==>
              var (labels, after) := ReadLabels(s).value; labels != [] && s == LabelsText(labels) + ['}'] + after
    decreases |s|
  {
    if ReadLabels(s).Some? {
      var (labels, after) := ReadLabels(s).value;
      ReadLabelsCases(s);
      LabelReadExactly(s);
      LabelsTextSplits(LabelText(labels[0]), LabelsText(labels[1..]), after);
      var rest := ReadLabel(s).value.1;
      if rest != ['}'] + after {
        LabelsReadExactly(rest[1..]);
      }
    }
  }

  lemma BracesReadExactly(s: string)
    requires ReadBraces(s).Some?
    ensures s == LabelsText(ReadBraces(s).value.0) + ['}'] + ReadBraces(s).value.1
  {
    if s[0] == '}' {
      assert s == "" + ['}'] + s[1..];
    } else {
      LabelsReadExactly(s);
    }
  }

  lemma ReadLineCases(s: string)
    requires ReadLine(s).Some?
    ensures var x := ReadLine(s).value;
            exists rest :: s == x.name + ['{'] + rest
                           && ReadBraces(rest) == Some((x.labels, [' '] + x.value + ['\n']))
  {
    var (_, rest) := SplitOnce(s, '{').value;
    Bracketed(ReadBraces(rest).value.1);
  }

  lemma Bracketed(after: string)
    requires |after| >= 2 && after[0] == ' ' && after[|after| - 1] == '\n'
    ensures after == [' '] + after[1..|after| - 1] + ['\n']
  {
  }

  /** The reader accepts nothing but printed lines, and only the line of the sample it returns. */
  lemma ReadsOnlyPrinted(s: string)
    requires ReadLine(s).Some?
    ensures s == Line(ReadLine(s).value)
  {
    var x := ReadLine(s).value;
    ReadLineCases(s);
    var rest :| s == x.name + ['{'] + rest && ReadBraces(rest) == Some((x.labels, [' '] + x.value + ['\n']));
    BracesReadExactly(rest);
    LineSplits(x.name, LabelsText(x.labels), x.value);
  }

  // ---------- One line ----------

  lemma {:induction false} EscapedOnOneLine(value: string)
    ensures '\n' !in Escaped(value)
  {
    if value != "" {
      EscapedOnOneLine(value[1..]);
    }
  }

  lemma {:induction false} LabelsOnOneLine(labels: seq<Label>)
    requires forall l | l in labels :: IsName(l.0)
    ensures '\n' !in LabelsText(labels)
  {
    if labels != [] {
      LabelsOnOneLine(labels[1..]);
      EscapedOnOneLine(labels[0].1);
    }
  }

  /** The only newline of a line is its last character, so no label value can forge a sample. */
  lemma ExactlyOneNewline(s: Sample)
    requires Printable(s)
    ensures forall k | 0 <= k < |Line(s)| :: Line(s)[k] == '\n' <==> k == |Line(s)| - 1
  {
    LabelsOnOneLine(s.labels);
    var body := s.name + "{" + LabelsText(s.labels) + "} " + s.value;
    assert '\n' !in body;
    assert Line(s) == body + "\n";
  }
}
