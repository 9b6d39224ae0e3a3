/** The augmented error of exterror.go (Go package `eerr`): an `Error`
    object built by `New`, enriched with `AddDebugField`, and turned into a
    multi-line report by its `Error()` method (here `ErrorText`), which also
    reports the chain of parent errors.

    What the Go runtime tells `New` (the caller's file, line and function,
    and the goroutine's stack text) comes in as parameters. */
module ExtError {
  import opened GoStrings
  import opened GoFmt
  import opened Report

  /** `const size = 1 << 12`: the size of the buffer the stack text is
      written into. */
  const STACK_BUFFER_SIZE := 0x1000

  newtype Int64 = x: int | -0x8000_0000_0000_0000 <= x < 0x8000_0000_0000_0000

  /** What runtime.Caller(1) and runtime.FuncForPC tell about the caller of
      New: whether the frame could be resolved, its file path and line, and
      the name of its function. */
  datatype CallerInfo = CallerInfo(ok: bool, file: string, line: int, funcName: string)

  /** The `Err` field: Go's nil, an error of some other type (known by the
      text its Error method returns), or another *Error. */
  datatype ParentErr = Nil | Foreign(text: string) | Wrapped(err: Error)

  function Min(a: int, b: int): int {
    if a < b then a else b
  }

  /** The file name New keeps: the last element of strings.Split(path, "/"),
      that is, what follows the last '/' (the whole path when it has none). */
  function BaseName(path: string): (name: string)
    ensures '/' !in name
    ensures '/' !in path ==> name == path
    ensures |name| <= |path| && path[|path| - |name|..] == name
    ensures |name| == |path| || path[|path| - |name| - 1] == '/'
  {
    var components := Split(path, '/');
    LastPiece(path, '/');
    components[|components| - 1]
  }

  /** The loop of Error() over the debug-field map: one formatted segment
      per key, in the order the map is visited in. */
  method DebugFieldStrings(fields: map<string, string>) returns (strs: seq<string>, ghost order: seq<string>)
    ensures IsKeyOrder(order, fields)
    ensures strs == FieldSegments(order, fields)
    ensures |strs| == |fields|
    ensures forall k :: k in fields ==> FieldSegment(k, fields[k]) in strs
  {
    strs := [];
    order := [];
    var unvisited := fields.Keys;
    while unvisited != {}
      invariant unvisited <= fields.Keys
      invariant forall i, j :: 0 <= i < j < |order| ==> order[i] != order[j]
      invariant forall k :: k in fields <==> k in order || k in unvisited
      invariant forall i :: 0 <= i < |order| ==> order[i] !in unvisited
      invariant strs == FieldSegments(order, fields)
      decreases unvisited
    {
      var k :| k in unvisited;
      strs := strs + [FieldSegment(k, fields[k])];
      order := order + [k];
      unvisited := unvisited - {k};
    }
    FieldSegmentsPerKey(order, fields);
  }

  /** prependToLines: splits `para` at each newline, puts `prefix` in front
      of every line in place, and joins the lines again. */
  method PrependToLines(para: string, prefix: string) returns (r: string)
    ensures r == PrependedLines(para, prefix)
  {
    var parts := Split(para, '\n');
    var lines := new string[|parts|](i requires 0 <= i < |parts| => parts[i]);
    for i := 0 to lines.Length
      invariant lines[..] == PrefixEach(parts[..i], prefix) + parts[i..]
    {
      lines[i] := prefix + lines[i];
    }
    assert parts[..|parts|] == parts && parts[|parts|..] == [];
    assert lines[..] == PrefixEach(parts, prefix);
    r := Join(lines[..], "\n");
  }

  class Error {
    var num: Int64
    var filename: string
    var callingMethod: string
    var line: int
    var endUserMsg: string
    var debugMsg: string
    /** Debug values are kept as the text `%+v` gives them. */
    var debugFields: map<string, string>
    var err: ParentErr
    var stackTrace: string
    /** This error and every *Error on its parent chain. */
    ghost var Repr: set<object>

    /** The parent chain is finite: every *Error on it has its own,
        strictly smaller, footprint. */
    ghost predicate Valid()
      reads this, Repr
      decreases Repr
    {
      && this in Repr
      && (err.Wrapped? ==>
            && err.err in Repr
            && err.err.Repr <= Repr
            && this !in err.err.Repr
            && err.err.Valid())
    }

    /** The error and its parent chain as a value. */
    ghost function View(): ErrorValue
      reads this, Repr
      requires Valid()
      decreases Repr
    {
      var parent :=
        match err
        case Nil => NilParent
        case Foreign(text) => ForeignParent(text)
        case Wrapped(p) => ErrorParent(p.View());
      ErrorValue(num as int, filename, callingMethod, line, endUserMsg, debugMsg, debugFields,
                 parent, stackTrace)
    }

    /** New: the number, the end-user message and the parent are stored as
        given, there are no debug fields and no debug message, the caller's
        location is kept only when it could be resolved, and at most
        STACK_BUFFER_SIZE bytes of the stack text are kept. */
    constructor New(num: Int64, endUserMsg: string, parentErr: ParentErr, caller: CallerInfo, trace: string)
      requires parentErr.Wrapped? ==> parentErr.err.Valid()
      ensures Valid()
      ensures Repr == {this} + (if parentErr.Wrapped? then parentErr.err.Repr else {})
      ensures this.num == num && this.endUserMsg == endUserMsg && err == parentErr
      ensures debugFields == map[] && debugMsg == ""
      ensures caller.ok ==>
                filename == BaseName(caller.file) && callingMethod == caller.funcName && line == caller.line
      ensures !caller.ok ==> filename == "" && callingMethod == "" && line == 0
      ensures stackTrace <= trace && |stackTrace| == Min(|trace|, STACK_BUFFER_SIZE)
    {
      this.num := num;
      this.endUserMsg := endUserMsg;
      err := parentErr;
      debugFields := map[];
      debugMsg := "";
      if caller.ok {
        line := caller.line;
        filename := BaseName(caller.file);
        callingMethod := caller.funcName;
      } else {
        line := 0;
        filename := "";
        callingMethod := "";
      }
      var n := Min(|trace|, STACK_BUFFER_SIZE);
      stackTrace := trace[..n];
      Repr := {this} + (if parentErr.Wrapped? then parentErr.err.Repr else {});
    }

    /** AddDebugField: sets the value of `key`, replacing any earlier one;
        nothing else about the error changes. */
    method AddDebugField(key: string, value: string)
      requires Valid()
      modifies this`debugFields
      ensures Valid()
      ensures debugFields == old(debugFields)[key := value]
      ensures View() == old(View()).(debugFields := old(debugFields)[key := value])
    {
      debugFields := debugFields[key := value];
    }

    /** The parent section of Error(): "nil" without a parent, otherwise
        the parent's text with every line prefixed by "-- ". */
    method ParentSection() returns (parentError: string)
      requires Valid()
      ensures IsParentText(parentError, old(View()).parent)
      decreases Repr, 0
    {
      parentError := NIL_PARENT;
      match err {
        case Nil =>
        case Foreign(text) =>
          parentError := PrependToLines(text, LINE_PREFIX);
        case Wrapped(p) =>
          var parentText := p.ErrorText();
          parentError := PrependToLines(parentText, LINE_PREFIX);
      }
    }

    /** Error(): one of the reports of this error, its debug fields in
        whatever order the map is visited in. Nothing is modified. */
    method ErrorText() returns (s: string)
      requires Valid()
      ensures IsReport(s, old(View()))
      decreases Repr, 1
    {
      ghost var v := View();
      var parentError := ParentSection();
      var debugFieldStrings, order := DebugFieldStrings(debugFields);
      var dbgMsg := "";
      if |debugMsg| > 0 {
        dbgMsg := DEBUG_MSG_LABEL + debugMsg;
      }
      var stack := PrependToLines(stackTrace, LINE_PREFIX);
      s := Sprintln([ERROR_LABEL, Decimal(num as int), filename, callingMethod, LINE_LABEL, Decimal(line),
                     END_USER_MSG_LABEL, endUserMsg, dbgMsg, Join(debugFieldStrings, ""),
                     STACK_TRACE_LABEL, TrimLeft(stack, ' '), PARENT_ERROR_LABEL, parentError]);
      SprintlnIsAssemble(v, order, parentError, dbgMsg, Join(debugFieldStrings, ""), TrimLeft(stack, ' '));
    }
  }
}
