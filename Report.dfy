/** The text `(*Error).Error()` in exterror.go produces, stated over values.

    An error is seen here as an `ErrorValue`: its fields, and its parent as
    nothing (Go's nil), the text of a foreign error, or another `ErrorValue`.
    Go ranges over a map in an unspecified order, so the debug-field segments
    of a report may come in any order of the keys: `IsReport(s, v)` says that
    `s` is one of the texts the method may return for `v`. */
module Report {
  import opened GoStrings
  import opened GoFmt

  const ERROR_LABEL := "\n\n-- Error"
  const LINE_LABEL := "line:"
  const END_USER_MSG_LABEL := "\n-- EndUserMsg: "
  const DEBUG_MSG_LABEL := "\n-- DebugMsg: "
  const DEBUG_FIELD_OPEN := "\n-- DebugField["
  const DEBUG_FIELD_CLOSE := "]: "
  const STACK_TRACE_LABEL := "\n-- StackTrace:"
  const PARENT_ERROR_LABEL := "\n-- ParentError:"
  const NIL_PARENT := "nil"
  /** Prefix put before every line of the stack trace and of a parent's report. */
  const LINE_PREFIX := "-- "

  datatype ErrorValue = ErrorValue(
    num: int,
    filename: string,
    callingMethod: string,
    line: int,
    endUserMsg: string,
    debugMsg: string,
    debugFields: map<string, string>,
    parent: ParentValue,
    stackTrace: string)

  datatype ParentValue = NilParent | ForeignParent(text: string) | ErrorParent(err: ErrorValue)

  ghost predicate Contains(s: string, t: string) {
    exists pre, post :: s == pre + t + post
  }

  ghost predicate EndsWith(s: string, t: string) {
    |t| <= |s| && s[|s| - |t|..] == t
  }

  // ---------------------------------------------------------------------
  // prependToLines

  function PrefixEach(lines: seq<string>, prefix: string): seq<string> {
    seq(|lines|, i requires 0 <= i < |lines| => prefix + lines[i])
  }

  /** What prependToLines(para, prefix) returns: every line of `para`
      (the pieces between newlines) with `prefix` in front. */
  function PrependedLines(para: string, prefix: string): (r: string)
    ensures prefix <= r
    ensures para == "" ==> r == prefix
    ensures prefix == "" ==> r == para
  {
    var lines := Split(para, '\n');
    JoinSplit(para, '\n');
    JoinEnds(PrefixEach(lines, prefix), "\n");
    assert prefix == "" ==> forall i :: 0 <= i < |lines| ==> PrefixEach(lines, prefix)[i] == lines[i];
    assert prefix == "" ==> PrefixEach(lines, prefix) == lines;
    Join(PrefixEach(lines, prefix), "\n")
  }

  /** With a prefix that holds no newline, the result has the same number of
      lines as the input, and its i-th line is the prefix and the input's
      i-th line. */
  lemma PrependKeepsLines(para: string, prefix: string)
    requires '\n' !in prefix
    ensures Split(PrependedLines(para, prefix), '\n') == PrefixEach(Split(para, '\n'), prefix)
    ensures Count(PrependedLines(para, prefix), '\n') == Count(para, '\n')
  {
    var lines := PrefixEach(Split(para, '\n'), prefix);
    forall i | 0 <= i < |lines|
      ensures '\n' !in lines[i]
    {
      assert lines[i] == prefix + Split(para, '\n')[i];
    }
    SplitJoin(lines, '\n');
  }

  // ---------------------------------------------------------------------
  // The sections of the report

  /** The Sprintf of one debug field: the DebugField label, the key, the
      closing label and the value. */
  function FieldSegment(key: string, value: string): string {
    DEBUG_FIELD_OPEN + key + DEBUG_FIELD_CLOSE + value
  }

  /** Where the shorter key of two ends, its segment has the ']' of the
      closing label and the other segment a character of its key. */
  lemma SegmentsDifferAtKeyEnd(k1: string, v1: string, k2: string, v2: string)
    requires ']' !in k2
    requires |k1| < |k2|
    ensures FieldSegment(k1, v1) != FieldSegment(k2, v2)
  {
    var at := |DEBUG_FIELD_OPEN| + |k1|;
    assert FieldSegment(k1, v1)[at] == ']';
    assert FieldSegment(k2, v2)[at] == k2[|k1|];
  }

  /** A segment names one field: keys without ']' and their values are read
      back unambiguously from the text Sprintf writes. */
  lemma FieldSegmentInjective(k1: string, v1: string, k2: string, v2: string)
    requires ']' !in k1 && ']' !in k2
    requires FieldSegment(k1, v1) == FieldSegment(k2, v2)
    ensures k1 == k2 && v1 == v2
  {
    if |k1| < |k2| {
      SegmentsDifferAtKeyEnd(k1, v1, k2, v2);
    } else if |k2| < |k1| {
      SegmentsDifferAtKeyEnd(k2, v2, k1, v1);
    } else {
      var seg, o, c := FieldSegment(k1, v1), |DEBUG_FIELD_OPEN|, |DEBUG_FIELD_CLOSE|;
      assert seg[o..o + |k1|] == k1;
      assert FieldSegment(k2, v2)[o..o + |k2|] == k2;
      assert seg[o + |k1| + c..] == v1;
      assert FieldSegment(k2, v2)[o + |k2| + c..] == v2;
    }
  }

  /** `order` lists every key of `fields` once: one possible order of a Go
      range over the map. */
  ghost predicate IsKeyOrder(order: seq<string>, fields: map<string, string>) {
    && (forall i, j :: 0 <= i < j < |order| ==> order[i] != order[j])
    && (forall k :: k in fields <==> k in order)
  }

  function FieldSegments(order: seq<string>, fields: map<string, string>): seq<string>
    requires forall i :: 0 <= i < |order| ==> order[i] in fields
  {
    seq(|order|, i requires 0 <= i < |order| => FieldSegment(order[i], fields[order[i]]))
  }

  /** The debug-message section: nothing for an empty message, otherwise
      the DebugMsg label followed by the message. */
  function DebugMsgSection(msg: string): (section: string)
    ensures section == "" <==> msg == ""
    ensures msg != "" ==> DEBUG_MSG_LABEL <= section && section[|DEBUG_MSG_LABEL|..] == msg
  {
    if |msg| > 0 then DEBUG_MSG_LABEL + msg else ""
  }

  /** The stack section: the trace with "-- " before every line. The
      TrimLeft of the source never removes a character, since the text
      starts with '-'. */
  function StackSection(trace: string): (section: string)
    ensures section == PrependedLines(trace, LINE_PREFIX)
  {
    var p := PrependedLines(trace, LINE_PREFIX);
    assert p[0] == '-';
    TrimLeft(p, ' ')
  }

  /** The operands of the Sprintln call that come before the debug message. */
  function HeadOperands(v: ErrorValue): seq<string> {
    [ERROR_LABEL, Decimal(v.num), v.filename, v.callingMethod, LINE_LABEL, Decimal(v.line),
     END_USER_MSG_LABEL, v.endUserMsg]
  }

  /** The operands of the Sprintln call that come after the debug message. */
  function TailOperands(fieldText: string, trace: string, parentText: string): seq<string> {
    [fieldText, STACK_TRACE_LABEL, StackSection(trace), PARENT_ERROR_LABEL, parentText]
  }

  /** The operands of the Sprintln call, for debug fields visited in
      `order` and a parent section that reads `parentText`. */
  function Operands(v: ErrorValue, order: seq<string>, parentText: string): seq<string>
    requires IsKeyOrder(order, v.debugFields)
  {
    var fieldText := Join(FieldSegments(order, v.debugFields), "");
    HeadOperands(v) + [DebugMsgSection(v.debugMsg)] + TailOperands(fieldText, v.stackTrace, parentText)
  }

  /** The report of `v` when its debug fields are visited in `order` and its
      parent section reads `parentText`. */
  function Assemble(v: ErrorValue, order: seq<string>, parentText: string): (s: string)
    requires IsKeyOrder(order, v.debugFields)
    ensures |s| > 0 && s[|s| - 1] == '\n'
  {
    Sprintln(Operands(v, order, parentText))
  }

  /** `s` is a text Error() may return for `v`: some order of its debug
      fields, and a parent section that is "nil", the foreign parent's text
      or one report of the parent, with every line prefixed. */
  ghost predicate IsReport(s: string, v: ErrorValue)
    decreases v
  {
    exists order, parentText ::
      && IsKeyOrder(order, v.debugFields)
      && IsParentText(parentText, v.parent)
      && s == Assemble(v, order, parentText)
  }

  ghost predicate IsParentText(text: string, p: ParentValue)
    decreases p
  {
    match p
    case NilParent => text == NIL_PARENT
    case ForeignParent(t) => text == PrependedLines(t, LINE_PREFIX)
    case ErrorParent(e) => exists q :: IsReport(q, e) && text == PrependedLines(q, LINE_PREFIX)
  }

  /** The Sprintln call of Error(), operand by operand, is the report
      assembled from its sections. */
  lemma SprintlnIsAssemble(v: ErrorValue, order: seq<string>, parentText: string, dbgMsg: string,
                           fieldText: string, stackText: string)
    requires IsKeyOrder(order, v.debugFields)
    requires dbgMsg == DebugMsgSection(v.debugMsg)
    requires fieldText == Join(FieldSegments(order, v.debugFields), "")
    requires stackText == StackSection(v.stackTrace)
    ensures Sprintln([ERROR_LABEL, Decimal(v.num), v.filename, v.callingMethod, LINE_LABEL, Decimal(v.line),
                      END_USER_MSG_LABEL, v.endUserMsg, dbgMsg, fieldText,
                      STACK_TRACE_LABEL, stackText, PARENT_ERROR_LABEL, parentText])
            == Assemble(v, order, parentText)
  {
    var num, line := Decimal(v.num), Decimal(v.line);
    DisplaySplits(ERROR_LABEL, num, v.filename, v.callingMethod, LINE_LABEL, line, END_USER_MSG_LABEL, v.endUserMsg,
                  dbgMsg, fieldText, STACK_TRACE_LABEL, stackText, PARENT_ERROR_LABEL, parentText);
  }

  /** A fourteen-element display cut after its eighth and ninth elements. */
  lemma DisplaySplits<T>(a: T, b: T, c: T, d: T, e: T, f: T, g: T, h: T, i: T, j: T, k: T, l: T, m: T, n: T)
    ensures [a, b, c, d, e, f, g, h, i, j, k, l, m, n] == [a, b, c, d, e, f, g, h] + [i] + [j, k, l, m, n]
  {
  }

  // ---------------------------------------------------------------------
  // Properties of the report

  /** The operands before and after the debug message, joined by spaces. */
  function HeadText(v: ErrorValue): string {
    Join(HeadOperands(v), " ")
  }

  function TailText(v: ErrorValue, order: seq<string>, parentText: string): string
    requires IsKeyOrder(order, v.debugFields)
  {
    Join(TailOperands(Join(FieldSegments(order, v.debugFields), ""), v.stackTrace, parentText), " ") + "\n"
  }

  /** The header line: number, file, function, line and end-user message. */
  lemma HeadTextWritten(v: ErrorValue)
    ensures HeadText(v) == ERROR_LABEL + " " + Decimal(v.num) + " " + v.filename + " " + v.callingMethod + " "
                           + LINE_LABEL + " " + Decimal(v.line) + " " + END_USER_MSG_LABEL + " " + v.endUserMsg
  {
    JoinEight(ERROR_LABEL, Decimal(v.num), v.filename, v.callingMethod, LINE_LABEL, Decimal(v.line),
              END_USER_MSG_LABEL, v.endUserMsg, " ");
  }

  /** The debug message has its own place between the end-user message and
      the debug fields. That place is empty exactly when the message is
      empty; otherwise it holds the DebugMsg label and the message. */
  lemma AssembleDebugMsgLayout(v: ErrorValue, order: seq<string>, parentText: string)
    requires IsKeyOrder(order, v.debugFields)
    ensures Assemble(v, order, parentText)
            == HeadText(v) + " " + DebugMsgSection(v.debugMsg) + " " + TailText(v, order, parentText)
    ensures DebugMsgSection(v.debugMsg) == "" <==> v.debugMsg == ""
    ensures v.debugMsg != "" ==> DebugMsgSection(v.debugMsg) == DEBUG_MSG_LABEL + v.debugMsg
  {
    var tail := TailOperands(Join(FieldSegments(order, v.debugFields), ""), v.stackTrace, parentText);
    SprintlnAround(HeadOperands(v), DebugMsgSection(v.debugMsg), tail);
    if v.debugMsg != "" {
      assert |DebugMsgSection(v.debugMsg)| > 0;
    }
  }

  lemma AppendAssoc(a: string, b: string, c: string)
    ensures a + b + c == a + (b + c)
  {
  }

  lemma PrefixOfAppend(a: string, b: string)
    ensures a <= a + b
  {
  }

  lemma SuffixOfAppend(a: string, b: string)
    ensures EndsWith(a + b, b)
  {
    assert (a + b)[|a|..] == b;
  }

  /** The report begins with the header line. */
  lemma ReportHeader(s: string, v: ErrorValue)
    requires IsReport(s, v)
    ensures ERROR_LABEL + " " + Decimal(v.num) + " " + v.filename + " " + v.callingMethod + " "
            + LINE_LABEL + " " + Decimal(v.line) + " " + END_USER_MSG_LABEL + " " + v.endUserMsg + " " <= s
  {
    var order, parentText :| IsKeyOrder(order, v.debugFields) && IsParentText(parentText, v.parent)
                             && s == Assemble(v, order, parentText);
    AssembleDebugMsgLayout(v, order, parentText);
    HeadTextWritten(v);
    var head := HeadText(v) + " ";
    var rest := DebugMsgSection(v.debugMsg) + " " + TailText(v, order, parentText);
    AppendAssoc(head, DebugMsgSection(v.debugMsg), " ");
    AppendAssoc(head, DebugMsgSection(v.debugMsg) + " ", TailText(v, order, parentText));
    PrefixOfAppend(head, rest);
  }

  /** A non-empty debug message appears in the report after its label. */
  lemma ReportContainsDebugMsg(s: string, v: ErrorValue)
    requires IsReport(s, v)
    requires v.debugMsg != ""
    ensures Contains(s, DEBUG_MSG_LABEL + v.debugMsg)
  {
    var order, parentText :| IsKeyOrder(order, v.debugFields) && IsParentText(parentText, v.parent)
                             && s == Assemble(v, order, parentText);
    AssembleDebugMsgLayout(v, order, parentText);
    var pre, mid, post := HeadText(v) + " ", DEBUG_MSG_LABEL + v.debugMsg, " " + TailText(v, order, parentText);
    AppendAssoc(pre + mid, " ", TailText(v, order, parentText));
    assert s == pre + mid + post;
    ContainsWitness(pre, mid, post);
  }

  lemma AppendInside(a: string, b: string, c: string, d: string)
    ensures a + (b + c + d) == (a + b) + c + d
  {
  }

  lemma ContainsWitness(pre: string, t: string, post: string)
    ensures Contains(pre + t + post, t)
  {
  }

  lemma {:induction false} DistinctCard(order: seq<string>)
    requires forall i, j :: 0 <= i < j < |order| ==> order[i] != order[j]
    ensures |set k | k in order| == |order|
  {
    if order != [] {
      var rest := order[1..];
      DistinctCard(rest);
      assert (set k | k in order) == {order[0]} + (set k | k in rest);
      assert order[0] !in rest;
    }
  }

  /** The field text holds exactly one segment per debug field: as many
      segments as keys, and for each key one position whose segment shows
      that key and its value. */
  lemma FieldSegmentsPerKey(order: seq<string>, fields: map<string, string>)
    requires IsKeyOrder(order, fields)
    ensures |FieldSegments(order, fields)| == |fields|
    ensures forall k :: k in fields ==>
              exists i :: 0 <= i < |order| && order[i] == k
                          && FieldSegments(order, fields)[i] == FieldSegment(k, fields[k])
                          && forall j :: 0 <= j < |order| && j != i ==> order[j] != k
  {
    DistinctCard(order);
    assert (set k | k in order) == fields.Keys;
    forall k | k in fields
      ensures exists i :: 0 <= i < |order| && order[i] == k
                          && FieldSegments(order, fields)[i] == FieldSegment(k, fields[k])
                          && forall j :: 0 <= j < |order| && j != i ==> order[j] != k
    {
      var i :| 0 <= i < |order| && order[i] == k;
      assert FieldSegments(order, fields)[i] == FieldSegment(k, fields[k]);
    }
  }

  /** Every piece of a join occurs in the joined text. */
  lemma {:induction false} JoinHasPart(parts: seq<string>, sep: string, i: nat)
    requires i < |parts|
    ensures Contains(Join(parts, sep), parts[i])
  {
    if i == 0 {
      JoinEnds(parts, sep);
      var joined := Join(parts, sep);
      assert joined == "" + parts[0] + joined[|parts[0]|..];
      ContainsWitness("", parts[0], joined[|parts[0]|..]);
    } else {
      var rest := parts[1..];
      assert rest[i - 1] == parts[i];
      JoinHasPart(rest, sep, i - 1);
      var pre, post :| Join(rest, sep) == pre + parts[i] + post;
      var lead := parts[0] + sep;
      assert Join(parts, sep) == lead + Join(rest, sep);
      AppendInside(lead, pre, parts[i], post);
      ContainsWitness(lead + pre, parts[i], post);
    }
  }

  lemma ContainsTransitive(s: string, t: string, u: string)
    requires Contains(s, t) && Contains(t, u)
    ensures Contains(s, u)
  {
    var a, b :| s == a + t + b;
    var c, d :| t == c + u + d;
    assert s == (a + c) + u + (d + b);
    ContainsWitness(a + c, u, d + b);
  }

  /** The joined debug-field segments are one of the operands of the
      report's Sprintln call. */
  lemma AssembleContainsFieldText(v: ErrorValue, order: seq<string>, parentText: string)
    requires IsKeyOrder(order, v.debugFields)
    ensures Contains(Assemble(v, order, parentText), Join(FieldSegments(order, v.debugFields), ""))
  {
    var operands := Operands(v, order, parentText);
    var fieldText := Join(FieldSegments(order, v.debugFields), "");
    assert operands[9] == fieldText;
    JoinHasPart(operands, " ", 9);
    var joined := Join(operands, " ");
    ContainsWitness("", joined, "\n");
    assert "" + joined + "\n" == Assemble(v, order, parentText);
    ContainsTransitive(Assemble(v, order, parentText), joined, fieldText);
  }

  /** Every debug field appears in the report as its own segment, showing
      the key and its value. */
  lemma ReportContainsField(s: string, v: ErrorValue, k: string)
    requires IsReport(s, v)
    requires k in v.debugFields
    ensures Contains(s, FieldSegment(k, v.debugFields[k]))
  {
    var order, parentText :| IsKeyOrder(order, v.debugFields) && IsParentText(parentText, v.parent)
                             && s == Assemble(v, order, parentText);
    var segs := FieldSegments(order, v.debugFields);
    FieldSegmentsPerKey(order, v.debugFields);
    var i :| 0 <= i < |order| && order[i] == k && segs[i] == FieldSegment(k, v.debugFields[k]);
    JoinHasPart(segs, "", i);
    AssembleContainsFieldText(v, order, parentText);
    ContainsTransitive(s, Join(segs, ""), segs[i]);
  }

  lemma {:induction false} DistinctMultiset(order: seq<string>)
    requires forall i, j :: 0 <= i < j < |order| ==> order[i] != order[j]
    ensures forall k :: multiset(order)[k] == if k in order then 1 else 0
  {
    if order != [] {
      DistinctMultiset(order[1..]);
      assert order == [order[0]] + order[1..];
      assert order[0] !in order[1..];
    }
  }

  lemma SegmentsConcat(a: seq<string>, b: seq<string>, fields: map<string, string>)
    requires forall i :: 0 <= i < |a| ==> a[i] in fields
    requires forall i :: 0 <= i < |b| ==> b[i] in fields
    ensures FieldSegments(a + b, fields) == FieldSegments(a, fields) + FieldSegments(b, fields)
  {
  }

  /** A sequence around one of its positions. */
  lemma CutAt<T>(b: seq<T>, j: nat)
    requires j < |b|
    ensures b == b[..j] + [b[j]] + b[j + 1..]
  {
  }

  lemma MultisetDrop<T>(a: seq<T>, b: seq<T>, j: nat)
    requires a != [] && j < |b| && b[j] == a[0]
    requires multiset(a) == multiset(b)
    ensures multiset(a[1..]) == multiset(b[..j] + b[j + 1..])
  {
    var x, rest := a[0], b[..j] + b[j + 1..];
    CutAt(b, j);
    HeadCons(a);
    assert multiset(b) == multiset(b[..j]) + multiset{x} + multiset(b[j + 1..]);
    assert multiset(rest) == multiset(b[..j]) + multiset(b[j + 1..]);
    assert multiset(a) == multiset{x} + multiset(a[1..]);
    assert multiset(rest) == multiset(b) - multiset{x};
    assert multiset(a[1..]) == multiset(a) - multiset{x};
  }

  lemma HeadCons<T>(a: seq<T>)
    requires |a| > 0
    ensures a == [a[0]] + a[1..]
  {
  }

  /** Same keys, same multiset of segments. */
  lemma {:induction false} SegmentsPermute(a: seq<string>, b: seq<string>, fields: map<string, string>)
    requires forall i :: 0 <= i < |a| ==> a[i] in fields
    requires forall i :: 0 <= i < |b| ==> b[i] in fields
    requires multiset(a) == multiset(b)
    ensures multiset(FieldSegments(a, fields)) == multiset(FieldSegments(b, fields))
  {
    if a == [] {
      assert |b| == |multiset(b)| == 0;
    } else {
      var x := a[0];
      assert x in multiset(b);
      var j :| 0 <= j < |b| && b[j] == x;
      var b1, b2 := b[..j], b[j + 1..];
      CutAt(b, j);
      HeadCons(a);
      MultisetDrop(a, b, j);
      SegmentsPermute(a[1..], b1 + b2, fields);
      SegmentsConcat([x], a[1..], fields);
      SegmentsConcat(b1, [x], fields);
      SegmentsConcat(b1 + [x], b2, fields);
      SegmentsConcat(b1, b2, fields);
      MultisetMiddle(FieldSegments([x], fields), FieldSegments(a[1..], fields),
                     FieldSegments(b1, fields), FieldSegments(b2, fields));
    }
  }

  /** Moving a block into the middle keeps the multiset. */
  lemma MultisetMiddle(x: seq<string>, rest: seq<string>, s1: seq<string>, s2: seq<string>)
    requires multiset(rest) == multiset(s1 + s2)
    ensures multiset(x + rest) == multiset(s1 + x + s2)
  {
  }

  /** The order Go happens to visit the keys in does not change which
      segments the report holds: any two key orders give the same multiset
      of segments. */
  lemma FieldOrderIrrelevant(o1: seq<string>, o2: seq<string>, fields: map<string, string>)
    requires IsKeyOrder(o1, fields) && IsKeyOrder(o2, fields)
    ensures multiset(FieldSegments(o1, fields)) == multiset(FieldSegments(o2, fields))
  {
    DistinctMultiset(o1);
    DistinctMultiset(o2);
    assert multiset(o1) == multiset(o2);
    SegmentsPermute(o1, o2, fields);
  }

  /** The stack section has the trace's lines, each prefixed with "-- ". */
  lemma StackSectionLines(trace: string)
    ensures Split(StackSection(trace), '\n') == PrefixEach(Split(trace, '\n'), LINE_PREFIX)
  {
    PrependKeepsLines(trace, LINE_PREFIX);
  }

  /** The report ends with its parent section: "nil" without a parent,
      otherwise the parent's text (for an error of this kind, one of its
      reports) with every line prefixed by "-- ". */
  lemma ReportParentSection(s: string, v: ErrorValue)
    requires IsReport(s, v)
    ensures v.parent.NilParent? ==> EndsWith(s, PARENT_ERROR_LABEL + " " + NIL_PARENT + "\n")
    ensures v.parent.ForeignParent? ==>
              EndsWith(s, PARENT_ERROR_LABEL + " " + PrependedLines(v.parent.text, LINE_PREFIX) + "\n")
    ensures v.parent.ErrorParent? ==>
              exists q :: IsReport(q, v.parent.err)
                          && EndsWith(s, PARENT_ERROR_LABEL + " " + PrependedLines(q, LINE_PREFIX) + "\n")
  {
    var order, parentText :| IsKeyOrder(order, v.debugFields) && IsParentText(parentText, v.parent)
                             && s == Assemble(v, order, parentText);
    var ops := Operands(v, order, parentText);
    var n := |ops|;
    SprintlnLastTwo(ops);
    assert ops[n - 2] == PARENT_ERROR_LABEL && ops[n - 1] == parentText;
    SuffixOfAppend(Join(ops[..n - 2], " ") + " ", PARENT_ERROR_LABEL + " " + parentText + "\n");
  }

  /** Every key set has an order to visit it in. */
  lemma KeyOrderExists(fields: map<string, string>)
    ensures exists order :: IsKeyOrder(order, fields)
    decreases |fields|
  {
    if fields != map[] {
      var k :| k in fields;
      var rest := fields - {k};
      assert |rest| < |fields| by {
        assert rest.Keys == fields.Keys - {k};
      }
      KeyOrderExists(rest);
      var order :| IsKeyOrder(order, rest);
      assert IsKeyOrder(order + [k], fields);
    } else {
      assert IsKeyOrder([], fields);
    }
  }

  /** Error() never fails: every error value has a report. */
  lemma {:induction false} ReportExists(v: ErrorValue)
    ensures exists s :: IsReport(s, v)
  {
    KeyOrderExists(v.debugFields);
    var order :| IsKeyOrder(order, v.debugFields);
    var parentText: string;
    match v.parent {
      case NilParent =>
        parentText := NIL_PARENT;
      case ForeignParent(t) =>
        parentText := PrependedLines(t, LINE_PREFIX);
      case ErrorParent(e) =>
        ReportExists(e);
        var q :| IsReport(q, e);
        parentText := PrependedLines(q, LINE_PREFIX);
    }
    assert IsParentText(parentText, v.parent);
    assert IsReport(Assemble(v, order, parentText), v);
  }
}
