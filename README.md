# exterror in Dafny

A model of the augmented error type of the Go package `eerr`
(exterror.go), with proofs about it. An `Error` carries:

- a number, an end-user message and a debug message;
- a map of debug fields;
- the caller's file, function and line;
- the goroutine's stack text;
- a parent error.

The package has three operations on it:

- `New` builds an error.
- `AddDebugField` sets one debug field.
- `Error()` renders the error as a multi-line report. It prepends `"-- "` to every line of the stack text and of the parent's own report, using the helper `prependToLines`.

The project has four modules:

- `GoStrings` models `strings.Split` with a one-character separator, `strings.Join` and `strings.TrimLeft` with a one-character cut set. It proves their split/join round trips.
- `GoFmt` models how `%v` writes an integer in decimal, with a parser that reads it back, and `fmt.Sprintln` over string operands: one space between operands and a newline at the end.
- `Report` states, over plain values, which texts `Error()` may return. `ErrorValue` is an error as a value, with its parent chain. Go visits a map in an unspecified order, so `IsReport(s, v)` is a relation: `s` is the report for some order of the debug-field keys. For an `*Error` parent, `s` embeds one report of that parent with every line prefixed. The properties of the report are lemmas about `IsReport`.
- `ExtError` is the imperative part:
  - the class `Error`, with the constructor `New` and the methods `AddDebugField` and `ErrorText` (Go's `Error()`). The first statements of `Error()`, which compute the parent section, are the method `ParentSection`;
  - `PrependToLines`, which rewrites the split lines in place in an array;
  - `DebugFieldStrings`, the loop over the debug-field map.

  Each is proved against the functions of `Report`. `Valid()` keeps the parent chain finite, and `View()` reads an object and its parents as an `ErrorValue`.

## Model

| member | source | states |
|---|---|---|
| GoStrings.Split | exterror.go:86 | strings.Split on one character: there is one more piece than there are separators, and no piece holds the separator |
| GoStrings.JoinSplit | exterror.go:86-90 | joining the pieces of a split with the same separator gives back the original text |
| GoStrings.SplitJoin | exterror.go:86-90 | splitting the join of pieces that hold no separator gives back exactly those pieces |
| GoStrings.LastPiece | exterror.go:35-36 | the last piece of a split is a suffix of the text; it is either the whole text or is preceded by the separator |
| GoStrings.TrimLeft | exterror.go:80 | the result is a suffix of the input that does not start with the cut character, and every removed character is that character |
| GoStrings.Join | exterror.go:90 | strings.Join: the pieces with the separator between each two; its properties are JoinEnds, JoinSplit, SplitJoin and JoinHasPart |
| GoStrings.JoinEnds | exterror.go:90 | a join starts with its first piece and ends with its last piece |
| GoFmt.Decimal | exterror.go:72 | the %v text of an integer is an optional minus sign, present exactly for negative numbers, followed by digits without a leading zero (zero is "0"); reading it back gives the number |
| GoFmt.Sprintln | exterror.go:70-82 | the text Sprintln returns always ends with a newline |
| GoFmt.SprintlnAround | exterror.go:70-82 | an operand in the middle of the call stands between two single spaces |
| GoFmt.SprintlnLastTwo | exterror.go:81-82 | the text ends with the last two operands separated by a space, then the newline |
| Report.PrependedLines | exterror.go:85-91 | the result starts with the prefix; empty input gives exactly the prefix; an empty prefix gives back the input |
| Report.PrependKeepsLines | exterror.go:85-91 | with a prefix that holds no newline, the result has as many newlines as the input, and its i-th line is the prefix followed by the input's i-th line |
| Report.IsReport | exterror.go:55-83 | the whole output of Error(): `s` is a report of `v` when some visit order of the debug-field keys and some parent section allowed by IsParentText give `s` through Assemble |
| Report.IsParentText | exterror.go:56-59 | the parent section: "nil" with no parent, the foreign parent's text with every line prefixed by "-- ", or one report of the *Error parent with every line prefixed |
| Report.FieldSegment | exterror.go:62 | the Sprintf of one debug field: the DebugField label, the key, "]: " and the value |
| Report.FieldSegmentInjective | exterror.go:62 | a segment names one field: two segments whose keys hold no ']' are equal only when their keys and their values are equal |
| Report.DebugMsgSection | exterror.go:65-68 | the debug-message section is empty exactly when DebugMsg is empty; otherwise it is the DebugMsg label followed by the message |
| Report.StackSection | exterror.go:80 | the stack section equals the trace with "-- " before every line: the TrimLeft removes nothing |
| Report.Assemble | exterror.go:70-82 | a report always ends with a newline |
| Report.SprintlnIsAssemble | exterror.go:70-82 | the bridge ErrorText is proved with: the literal Sprintln call of Error(), operand by operand, equals Assemble, the report put together from its sections |
| Report.AssembleDebugMsgLayout | exterror.go:65-77 | the report is the header, a space, the debug-message section, a space and the rest; that section is empty exactly when DebugMsg is empty, and otherwise it is the DebugMsg label followed by the message |
| Report.ReportHeader | exterror.go:70-76 | every report starts with the Error label, the number, the file name, the calling function, "line:", the line and the end-user message, separated by spaces |
| Report.ReportContainsDebugMsg | exterror.go:65-67 | when DebugMsg is non-empty, every report contains the DebugMsg label followed by the message |
| Report.FieldSegmentsPerKey | exterror.go:60-64 | a visit order produces one segment per debug field; each key has exactly one position, and the segment there shows that key and its value |
| Report.JoinHasPart | exterror.go:78 | every piece of a join occurs in the joined text |
| Report.AssembleContainsFieldText | exterror.go:78 | the joined debug-field segments occur in the report |
| Report.ReportContainsField | exterror.go:60-78 | for every debug field, every report contains that field's segment, with its key and value |
| Report.SegmentsPermute | exterror.go:61-63 | two visit orders that are permutations of each other give the same multiset of segments |
| Report.FieldOrderIrrelevant | exterror.go:61-63 | any two orders Go may visit the map in give the same multiset of debug-field segments |
| Report.StackSectionLines | exterror.go:80 | the stack section's lines are the trace's lines, each prefixed with "-- " |
| Report.ReportParentSection | exterror.go:56-82 | a report ends with the ParentError label, a space, the parent section and a newline; the section is "nil" with no parent, the foreign parent's text with every line prefixed, or a report of the *Error parent with every line prefixed |
| Report.KeyOrderExists | exterror.go:61 | every debug-field map has an order in which Go can visit its keys |
| Report.ReportExists | exterror.go:55-83 | Error() never fails: every error value, including its whole parent chain, has a report |
| ExtError.BaseName | exterror.go:35-36 | the file name kept is the part of the path after the last '/'; it holds no '/', and it is the whole path when the path has no '/' |
| ExtError.DebugFieldStrings | exterror.go:60-64 | the loop over the map visits every key exactly once and appends that key's segment, in the visit order; so there are as many segments as debug fields, and every field's segment, with its key and value, is among them |
| ExtError.PrependToLines | exterror.go:85-91 | the in-place loop over the split lines returns exactly the prefixed text |
| ExtError.Error.New | exterror.go:24-49 | New always succeeds; it stores the number, end-user message and parent as given; it starts with no debug fields and an empty DebugMsg; it keeps the base name of the file, the function and the line only when the caller is known, and otherwise leaves "", "" and 0; the stack text it keeps is the first min(len, 4096) bytes of the trace |
| ExtError.Error.AddDebugField | exterror.go:51-53 | the key now maps to the value and any earlier value is replaced; every other key and every other field is unchanged |
| ExtError.Error.Valid | exterror.go:20 | the parent chain through Err is finite: every *Error on it has a strictly smaller footprint that leaves out this error |
| ExtError.Error.View | exterror.go:12-22 | the error and its whole parent chain read as an ErrorValue |
| ExtError.Error.ParentSection | exterror.go:56-59 | the parent section computed in place, which is one allowed by IsParentText for the error as it is, recursing into an *Error parent's Error() |
| ExtError.Error.ErrorText | exterror.go:55-83 | Error() returns a report of the error as it is, modifying nothing, and recurses through an *Error parent |

## Left out

- runtime.Caller, runtime.FuncForPC and runtime.Stack are runtime introspection. New takes what they would report as parameters: the ok flag, the file path, the line, the function name and the stack text. The copy into the 4096-byte buffer becomes taking the first min(len, 4096) characters.
- log.Print in New is a logging side effect and is not modelled.
- Debug values are `interface{}` printed with `%+v`. Here each value is the string that verb would print, so the formatting of arbitrary Go values is not modelled.
- The Error() method of a parent that is not an *Error is foreign code. It is modelled as the fixed text that method returns.
- Go's map iteration order is random. The model allows every order and says nothing about which one is taken.
- Strings are sequences of `char`, one per Go byte, so UTF-8 is not modelled. `Num` is an `int64`. `Line` and the caller's line are unbounded integers.
- DebugMsg has no setter in exterror.go. A client assigns the public field directly, in Go as here (`debugMsg` is a public `var` of the class); Error() reads whatever it holds.
- The DebugFields map is a value of type `map<string, string>` here. Go's map is a reference, so two behaviours are not modelled. First, the map can be nil, for an Error built as a literal (`&Error{}`) or after a client sets the field to nil, and AddDebugField then panics at exterror.go:52. Second, two errors can share one map, so that AddDebugField on one also changes the other. Every Error in the model comes from New, which always makes a fresh, empty map.
- A nil *Error stored in the `error` interface as a parent is not modelled. Go would call its Error() method on a nil receiver.
- ExtError.Error.New: requires an *Error parent to be Valid(), that is, to have a finite parent chain. Go does not check this. Err is a public field, so a client can assign it after New, in Go as here, and can make the chain cyclic; Go's Error() would then recurse forever. Valid() excludes such a cycle: New requires it of an *Error parent, and AddDebugField, ParentSection and ErrorText require it of the error itself.
- ExtError.Error.ErrorText: the result is stated against the state on entry, `old(View())`. The method has no `modifies` clause, so Dafny rules out any change to the state.
- Report.ReportContainsDebugMsg: gives only the "if" direction of "the report contains the DebugMsg label and message exactly when DebugMsg is non-empty". The end-user message, a field or the stack text may contain that same text, so the "only if" direction does not hold of the whole report. Report.AssembleDebugMsgLayout states instead that the debug-message section itself is empty exactly when DebugMsg is empty.
- Exact calling-function names and line numbers depend on runtime frame resolution. They are whatever the caller parameter says.
