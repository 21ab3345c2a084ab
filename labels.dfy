/** One line of a label file, `class_id x_center y_center width height`, as
    the handler unpacks it with `map(float, line.strip().split())`. */
module Labels {
  import opened Options
  import opened Tokens
  import opened Numbers

  /** A parsed label line. The coordinates are fractions of the image size. */
  datatype Detection = Detection(classId: real, xCenter: real, yCenter: real, width: real, height: real)

  predicate AllNumbers(tokens: seq<string>) {
    forall i :: 0 <= i < |tokens| ==> ParseNumber(tokens[i]).Some?
  }

  /** A line is accepted exactly when it splits into five tokens that are all
      numbers; every other line (blank, too short, too long, or with a token
      that is not a number) makes the unpacking raise ValueError and is
      skipped. The fields are the five numbers in order. */
  function ParseLine(line: string): (r: Option<Detection>)
    ensures r.Some? <==> |Split(line)| == 5 && AllNumbers(Split(line))
    ensures r.Some? ==>
      ParseNumber(Split(line)[0]) == Some(r.value.classId) &&
      ParseNumber(Split(line)[1]) == Some(r.value.xCenter) &&
      ParseNumber(Split(line)[2]) == Some(r.value.yCenter) &&
      ParseNumber(Split(line)[3]) == Some(r.value.width) &&
      ParseNumber(Split(line)[4]) == Some(r.value.height)
  {
    var tokens := Split(Strip(line));
    if |tokens| == 5 && AllNumbers(tokens) then
      Some(Detection(ParseNumber(tokens[0]).value, ParseNumber(tokens[1]).value,
                     ParseNumber(tokens[2]).value, ParseNumber(tokens[3]).value,
                     ParseNumber(tokens[4]).value))
    else
      None
  }

  /** A blank line, including one holding only a line break, is skipped. */
  lemma BlankLineSkipped(line: string)
    requires AllSpace(line)
    ensures ParseLine(line) == None
  {
    AllSpaceSplitsToNothing(line);
  }

  /** Five numeric words joined by spaces are read back as those five numbers. */
  lemma ParseWords(ws: seq<string>)
    requires |ws| == 5 && forall i :: 0 <= i < 5 ==> IsWord(ws[i]) && ParseNumber(ws[i]).Some?
    ensures ParseLine(Unwords(ws)) == Some(Detection(ParseNumber(ws[0]).value, ParseNumber(ws[1]).value,
                                                     ParseNumber(ws[2]).value, ParseNumber(ws[3]).value,
                                                     ParseNumber(ws[4]).value))
  {
    SplitUnwords(ws);
  }

  /** Two lines whose tokens differ at most in a numeric class id are
      accepted together and agree on every coordinate. */
  lemma ParseLinesDifferingInClass(lineA: string, lineB: string)
    requires |Split(lineA)| == 5 && |Split(lineB)| == 5
    requires forall i :: 1 <= i < 5 ==> Split(lineA)[i] == Split(lineB)[i]
    requires ParseNumber(Split(lineA)[0]).Some? && ParseNumber(Split(lineB)[0]).Some?
    ensures ParseLine(lineA).Some? <==> ParseLine(lineB).Some?
    ensures ParseLine(lineA).Some? ==>
              ParseLine(lineB).Some? &&
              ParseLine(lineB).value == ParseLine(lineA).value.(classId := ParseLine(lineB).value.classId)
  {
    AllNumbersBesideHead(Split(lineA), Split(lineB));
  }

  /** Token lists that agree after their first token, whose first tokens are
      both numbers, are all numbers together. */
  lemma {:induction false} AllNumbersBesideHead(ta: seq<string>, tb: seq<string>)
    requires |ta| == |tb| > 0
    requires forall i :: 1 <= i < |ta| ==> ta[i] == tb[i]
    requires ParseNumber(ta[0]).Some? && ParseNumber(tb[0]).Some?
    ensures AllNumbers(ta) <==> AllNumbers(tb)
  {
    assert ta[1..] == tb[1..];
    AllNumbersOfHeadAndTail(ta);
    AllNumbersOfHeadAndTail(tb);
  }

  /** A token list is all numbers when its head is one and its tail is all numbers. */
  lemma {:induction false} AllNumbersOfHeadAndTail(t: seq<string>)
    requires |t| > 0
    ensures AllNumbers(t) <==> ParseNumber(t[0]).Some? && AllNumbers(t[1..])
  {
    assert forall i :: 1 <= i < |t| ==> t[i] == t[1..][i - 1];
  }
}
