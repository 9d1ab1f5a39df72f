/** c/simplog.c, the parsing loop of loadConfig: a one-pass scanner over the text of the file that
    refines "split into lines, split each at its last equals sign, apply in order". */
module SimplogConfig {
  import opened Bytes
  import opened CLib

  const EQUALS: byte := 61
  const NEWLINE: byte := 10

  /** The size of the var and val buffers. */
  const FIELD: nat := 255

  datatype Settings = Settings(silent: bool, wrap: bool, flush: bool, debug: int, logfile: seq<byte>)

  // ---- The plain specification

  function IndexOf(s: seq<byte>, c: byte): (i: nat)
    requires c in s
    ensures i < |s| && s[i] == c && c !in s[..i]
  {
    if s[0] == c then 0 else IndexOf(s[1..], c) + 1
  }

  /** The newline-terminated lines of a text; an unterminated tail is no line. */
  function Lines(text: seq<byte>): seq<seq<byte>>
    decreases |text|
  {
    if NEWLINE !in text then []
    else
      var i := IndexOf(text, NEWLINE);
      [text[..i]] + Lines(text[i + 1..])
  }

  function LastEquals(line: seq<byte>): (i: Option<nat>)
    ensures i.Some? ==> i.value < |line|
  {
    if line == [] then None
    else if line[|line| - 1] == EQUALS then Some(|line| - 1)
    else LastEquals(line[..|line| - 1])
  }

  /** It is the last equals sign, and without one there is none. */
  lemma {:induction false} LastEqualsIsLast(line: seq<byte>)
    ensures match LastEquals(line)
      case Some(i) => line[i] == EQUALS && EQUALS !in line[i + 1..]
      case None => EQUALS !in line
  {
    if line != [] && line[|line| - 1] != EQUALS {
      LastEqualsIsLast(line[..|line| - 1]);
    }
  }

  datatype Assignment = Assignment(key: seq<byte>, value: seq<byte>)

  /** The text before and after a line's last equals sign; None without one, or when a field does
      not fit its buffer with a NUL behind it. */
  function ParseLine(line: seq<byte>): Option<Assignment> {
    match LastEquals(line)
    case None => None
    case Some(i) =>
      if i < FIELD && |line| - i - 1 < FIELD then Some(Assignment(line[..i], line[i + 1..])) else None
  }

  function BoolOf(value: seq<byte>): Option<bool> {
    if value == Ascii("true") then Some(true) else if value == Ascii("false") then Some(false) else None
  }

  /** One assignment; None where the program would use an indeterminate boolean or number. */
  function Apply(s: Settings, a: Assignment): Option<Settings> {
    var b := BoolOf(a.value);
    if a.key == Ascii("silent") then (if b.Some? then Some(s.(silent := b.value)) else None)
    else if a.key == Ascii("flush") then (if b.Some? then Some(s.(flush := b.value)) else None)
    else if a.key == Ascii("wrap") then (if b.Some? then Some(s.(wrap := b.value)) else None)
    else if a.key == Ascii("debug") then
      var n := Atoi(a.value + [0]);
      (if n.Some? then Some(s.(debug := n.value)) else None)
    else if a.key == Ascii("logfile") then Some(s.(logfile := a.value))
    else Some(s)
  }

  function ApplyLine(s: Settings, line: seq<byte>): Option<Settings> {
    match ParseLine(line)
    case None => None
    case Some(a) => Apply(s, a)
  }

  /** The left fold of the lines over the settings. */
  function ApplyLines(s: Settings, lines: seq<seq<byte>>): Option<Settings>
    decreases |lines|
  {
    if lines == [] then Some(s)
    else
      match ApplyLine(s, lines[0])
      case None => None
      case Some(s') => ApplyLines(s', lines[1..])
  }

  // ---- What the specification says

  function Unlines(lines: seq<seq<byte>>): seq<byte> {
    if lines == [] then [] else lines[0] + [10] + Unlines(lines[1..])
  }

  lemma {:induction false} IndexBehind(s: seq<byte>, c: byte, rest: seq<byte>)
    requires c !in s
    ensures c in s + [c] + rest && IndexOf(s + [c] + rest, c) == |s|
  {
    assert (s + [c] + rest)[|s|] == c;
    if s != [] {
      IndexBehind(s[1..], c, rest);
      assert (s + [c] + rest)[1..] == s[1..] + [c] + rest;
    }
  }

  /** The lines of a text are the only newline-free pieces that, each ended by a newline and
      followed by a newline-free tail, make it up. */
  lemma {:induction false} LinesOfUnlines(lines: seq<seq<byte>>, tail: seq<byte>)
    requires 10 !in tail && forall i :: 0 <= i < |lines| ==> 10 !in lines[i]
    ensures Lines(Unlines(lines) + tail) == lines
    decreases |lines|
  {
    if lines == [] {
      assert Unlines(lines) + tail == tail;
    } else {
      var line, rest := lines[0], lines[1..];
      LinesOfUnlines(rest, tail);
      FirstLine(line, Unlines(rest) + tail);
      AppendAssociative(line + [NEWLINE], Unlines(rest), tail);
      assert [line] + rest == lines;
    }
  }

  lemma FirstLine(line: seq<byte>, rest: seq<byte>)
    requires NEWLINE !in line
    ensures Lines(line + [NEWLINE] + rest) == [line] + Lines(rest)
  {
    IndexBehind(line, NEWLINE, rest);
    var text := line + [NEWLINE] + rest;
    assert text[..|line|] == line && text[|line| + 1..] == rest;
  }

  lemma {:induction false} LastEqualsBefore(key: seq<byte>, value: seq<byte>)
    requires EQUALS !in value
    ensures LastEquals(key + [EQUALS] + value) == Some(|key|)
    ensures LastEquals(value) == None
  {
    var line := key + [EQUALS] + value;
    if value != [] {
      var shorter := value[..|value| - 1];
      LastEqualsBefore(key, shorter);
      assert line[..|line| - 1] == key + [EQUALS] + shorter;
    }
  }

  /** A key may itself hold equals signs; a value may not. */
  lemma ParseLineSplitsAtTheLast(key: seq<byte>, value: seq<byte>)
    requires 61 !in value
    ensures ParseLine(key + [61] + value)
      == if |key| < 255 && |value| < 255 then Some(Assignment(key, value)) else None
    ensures ParseLine(value) == None
  {
    LastEqualsBefore(key, value);
    var line := key + [EQUALS] + value;
    assert line[..|key|] == key && line[|key| + 1..] == value;
  }

  lemma Words()
    ensures Ascii("silent") == [115, 105, 108, 101, 110, 116]
    ensures Ascii("flush") == [102, 108, 117, 115, 104]
    ensures Ascii("wrap") == [119, 114, 97, 112]
    ensures Ascii("debug") == [100, 101, 98, 117, 103]
    ensures Ascii("logfile") == [108, 111, 103, 102, 105, 108, 101]
    ensures Ascii("true") == [116, 114, 117, 101]
    ensures Ascii("false") == [102, 97, 108, 115, 101]
  {
  }

  // What one line of each setting does, in plain bytes: the booleans take true and false and
  // nothing else, debug takes what atoi defines, logfile anything.

  lemma SilentLine(s: Settings, v: seq<byte>)
    requires 61 !in v && |v| < 255
    ensures ApplyLine(s, [115, 105, 108, 101, 110, 116] + [61] + v)
      == if v == [116, 114, 117, 101] then Some(s.(silent := true))
         else if v == [102, 97, 108, 115, 101] then Some(s.(silent := false)) else None
  {
    Words();
    ParseLineSplitsAtTheLast([115, 105, 108, 101, 110, 116], v);
  }

  lemma FlushLine(s: Settings, v: seq<byte>)
    requires 61 !in v && |v| < 255
    ensures ApplyLine(s, [102, 108, 117, 115, 104] + [61] + v)
      == if v == [116, 114, 117, 101] then Some(s.(flush := true))
         else if v == [102, 97, 108, 115, 101] then Some(s.(flush := false)) else None
  {
    Words();
    ParseLineSplitsAtTheLast([102, 108, 117, 115, 104], v);
  }

  lemma WrapLine(s: Settings, v: seq<byte>)
    requires 61 !in v && |v| < 255
    ensures ApplyLine(s, [119, 114, 97, 112] + [61] + v)
      == if v == [116, 114, 117, 101] then Some(s.(wrap := true))
         else if v == [102, 97, 108, 115, 101] then Some(s.(wrap := false)) else None
  {
    Words();
    ParseLineSplitsAtTheLast([119, 114, 97, 112], v);
  }

  lemma DebugLine(s: Settings, v: seq<byte>)
    requires 61 !in v && |v| < 255
    ensures ApplyLine(s, [100, 101, 98, 117, 103] + [61] + v)
      == if Atoi(v + [0]).Some? then Some(s.(debug := Atoi(v + [0]).value)) else None
  {
    Words();
    ParseLineSplitsAtTheLast([100, 101, 98, 117, 103], v);
  }

  lemma LogfileLine(s: Settings, v: seq<byte>)
    requires 61 !in v && |v| < 255
    ensures ApplyLine(s, [108, 111, 103, 102, 105, 108, 101] + [61] + v) == Some(s.(logfile := v))
  {
    Words();
    ParseLineSplitsAtTheLast([108, 111, 103, 102, 105, 108, 101], v);
  }

  /** A boolean line is well formed exactly if it says true or false. */
  lemma BooleanLinesWellFormed(key: seq<byte>, v: seq<byte>)
    requires 61 !in v && |v| < 255
    requires key in {[115, 105, 108, 101, 110, 116], [102, 108, 117, 115, 104], [119, 114, 97, 112]}
    ensures WellFormed(key + [61] + v) <==> v in {[116, 114, 117, 101], [102, 97, 108, 115, 101]}
  {
    Words();
    ParseLineSplitsAtTheLast(key, v);
  }

  /** Any other key, equals signs and all, is ignored. */
  lemma OtherLines(s: Settings, key: seq<byte>, v: seq<byte>)
    requires 61 !in v && |v| < 255 && |key| < 255
    requires key !in {[115, 105, 108, 101, 110, 116], [102, 108, 117, 115, 104], [119, 114, 97, 112],
                      [100, 101, 98, 117, 103], [108, 111, 103, 102, 105, 108, 101]}
    ensures ApplyLine(s, key + [61] + v) == Some(s) && WellFormed(key + [61] + v)
  {
    Words();
    ParseLineSplitsAtTheLast(key, v);
  }

  /** The value of the last line that assigns to a key. */
  function LastValue(lines: seq<seq<byte>>, key: seq<byte>): Option<seq<byte>>
    decreases |lines|
  {
    if lines == [] then None
    else
      var later := LastValue(lines[1..], key);
      var a := ParseLine(lines[0]);
      if later.Some? then later
      else if a.Some? && a.value.key == key then Some(a.value.value)
      else None
  }

  lemma KeysDiffer()
    ensures |Ascii("silent")| == 6 && |Ascii("flush")| == 5 && |Ascii("wrap")| == 4
    ensures |Ascii("debug")| == 5 && |Ascii("logfile")| == 7
    ensures Ascii("flush") != Ascii("debug") && Ascii("true") != Ascii("false")
  {
    assert Ascii("flush")[0] != Ascii("debug")[0];
    assert |Ascii("true")| != |Ascii("false")|;
  }

  function FlagOr(value: Option<seq<byte>>, default: bool): bool {
    match value
    case Some(v) => v == Ascii("true")
    case None => default
  }

  function NumberOr(value: Option<seq<byte>>, default: int): Option<int> {
    match value
    case Some(v) => Atoi(v + [0])
    case None => Some(default)
  }

  function TextOr(value: Option<seq<byte>>, default: seq<byte>): seq<byte> {
    match value
    case Some(v) => v
    case None => default
  }

  /** The settings a run of lines ends with, read off the last value of each key; a key without
      one keeps its default. */
  predicate Final(s: Settings, lines: seq<seq<byte>>, t: Settings) {
    && t.silent == FlagOr(LastValue(lines, Ascii("silent")), s.silent)
    && t.flush == FlagOr(LastValue(lines, Ascii("flush")), s.flush)
    && t.wrap == FlagOr(LastValue(lines, Ascii("wrap")), s.wrap)
    && Some(t.debug) == NumberOr(LastValue(lines, Ascii("debug")), s.debug)
    && t.logfile == TextOr(LastValue(lines, Ascii("logfile")), s.logfile)
  }

  lemma LastValueOfMore(line: seq<byte>, lines: seq<seq<byte>>, key: seq<byte>)
    ensures var later := LastValue(lines, key);
      LastValue([line] + lines, key) == if later.Some? then later else LastValue([line], key)
  {
    assert ([line] + lines)[1..] == lines;
  }

  lemma OneLine(s: Settings, line: seq<byte>)
    requires ApplyLine(s, line).Some?
    ensures Final(s, [line], ApplyLine(s, line).value)
  {
    KeysDiffer();
    LastValueOfOne(line, Ascii("silent"));
    LastValueOfOne(line, Ascii("flush"));
    LastValueOfOne(line, Ascii("wrap"));
    LastValueOfOne(line, Ascii("debug"));
    LastValueOfOne(line, Ascii("logfile"));
  }

  lemma LastValueOfOne(line: seq<byte>, key: seq<byte>)
    ensures LastValue([line], key)
      == if ParseLine(line).Some? && ParseLine(line).value.key == key then Some(ParseLine(line).value.value) else None
  {
  }

  lemma FinalComposes(s: Settings, line: seq<byte>, u: Settings, lines: seq<seq<byte>>, t: Settings)
    requires Final(s, [line], u) && Final(u, lines, t)
    ensures Final(s, [line] + lines, t)
  {
    LastValueOfMore(line, lines, Ascii("silent"));
    LastValueOfMore(line, lines, Ascii("flush"));
    LastValueOfMore(line, lines, Ascii("wrap"));
    LastValueOfMore(line, lines, Ascii("debug"));
    LastValueOfMore(line, lines, Ascii("logfile"));
  }

  /** For each setting the last line that assigns it wins, and a setting that no line assigns
      keeps its default. */
  lemma {:induction false} LastAssignmentWins(s: Settings, lines: seq<seq<byte>>)
    requires ApplyLines(s, lines).Some?
    ensures Final(s, lines, ApplyLines(s, lines).value)
    decreases |lines|
  {
    if lines != [] {
      var u := ApplyLine(s, lines[0]).value;
      OneLine(s, lines[0]);
      LastAssignmentWins(u, lines[1..]);
      FinalComposes(s, lines[0], u, lines[1..], ApplyLines(u, lines[1..]).value);
      assert lines == [lines[0]] + lines[1..];
    }
  }

  /** A line the program can digest: it has an equals sign, its fields fit, a boolean key carries
      true or false and the debug level is a number. */
  predicate WellFormed(line: seq<byte>) {
    var a := ParseLine(line);
    && a.Some?
    && (a.value.key in {Ascii("silent"), Ascii("flush"), Ascii("wrap")} ==> BoolOf(a.value.value).Some?)
    && (a.value.key == Ascii("debug") ==> Atoi(a.value.value + [0]).Some?)
  }

  lemma {:induction false} DefinedExactly(s: Settings, lines: seq<seq<byte>>)
    ensures ApplyLines(s, lines).Some? <==> forall i :: 0 <= i < |lines| ==> WellFormed(lines[i])
    decreases |lines|
  {
    if lines != [] {
      KeysDiffer();
      assert ApplyLine(s, lines[0]).Some? <==> WellFormed(lines[0]);
      if WellFormed(lines[0]) {
        DefinedExactly(ApplyLine(s, lines[0]).value, lines[1..]);
        assert forall i :: 0 < i < |lines| ==> lines[i] == lines[1..][i - 1];
      }
    }
  }

  // ---- The scanner

  /** memset to zero and strncpy of a shorter NUL-free string: the buffer holds that C string. */
  method CopyField(dst: array<byte>, src: seq<byte>)
    requires dst.Length == FIELD && |src| < FIELD && 0 !in src
    modifies dst
    ensures src + [0] <= dst[..]
  {
    forall i | 0 <= i < FIELD {
      dst[i] := if i < |src| then src[i] else 0;
    }
    assert dst[..] == src + [0] + dst[|src| + 1..];
  }

  /** The settings variables after one line's fields: the comparisons and conversions of the loop.
      boolVal is left unset by any value but true and false. */
  method ApplyFields(s: Settings, key: array<byte>, val: array<byte>, ghost a: Assignment) returns (r: Option<Settings>)
    requires key.Length == FIELD && val.Length == FIELD
    requires a.key + [0] <= key[..] && a.value + [0] <= val[..] && 0 !in a.key && 0 !in a.value
    ensures r == Apply(s, a)
  {
    FieldReads(key[..], a.key);
    FieldReads(val[..], a.value);
    var name, value := CStr(key[..]), CStr(val[..]);
    var boolVal: Option<bool> := None;
    if value == Ascii("true") {
      boolVal := Some(true);
    } else if value == Ascii("false") {
      boolVal := Some(false);
    }
    r := Some(s);
    if name == Ascii("silent") {
      r := if boolVal.None? then None else Some(s.(silent := boolVal.value));
    } else if name == Ascii("flush") {
      r := if boolVal.None? then None else Some(s.(flush := boolVal.value));
    } else if name == Ascii("wrap") {
      r := if boolVal.None? then None else Some(s.(wrap := boolVal.value));
    } else if name == Ascii("debug") {
      var n := Atoi(val[..]);
      r := if n.None? then None else Some(s.(debug := n.value));
    } else if name == Ascii("logfile") {
      r := Some(s.(logfile := value));
    }
  }

  lemma FieldReads(field: seq<byte>, text: seq<byte>)
    requires text + [0] <= field && 0 !in text
    ensures CStr(field) == text && Atoi(field) == Atoi(text + [0])
  {
    var rest := field[|text| + 1..];
    assert field == text + [0] + rest;
    CStrStopsAtNul(text, rest);
    AtoiStopsAtNul(text, rest);
  }

  /** The split index after part of a line: just behind its last equals sign so far, or not
      beyond the line's start. */
  ghost predicate SplitAt(part: seq<byte>, split: int) {
    if split <= 0 then EQUALS !in part else split <= |part| && LastEquals(part) == Some(split - 1)
  }

  /** At a newline, the fields between the indices are those of the line. */
  lemma FieldsOfLine(line: seq<byte>, split: int)
    requires SplitAt(line, split)
    ensures ParseLine(line) ==
      if split <= 0 || split - 1 >= FIELD || |line| - split >= FIELD then None
      else Some(Assignment(line[..split - 1], line[split..]))
  {
    LastEqualsIsLast(line);
  }

  /** The scanner at index i: the line that begins at start has no newline yet, and split points
      behind its last equals sign. */
  ghost predicate InLine(text: seq<byte>, start: nat, i: nat, split: int) {
    && start <= i <= |text| && split <= i && NEWLINE !in text[start..i]
    && SplitAt(text[start..i], split - start)
  }

  /** Besides, folding the lines from start on over s gives the result. */
  ghost predicate Scanned(text: seq<byte>, result: Option<Settings>, s: Settings, start: nat, i: nat, split: int) {
    && InLine(text, start, i, split)
    && ApplyLines(s, Lines(text[start..])) == result
  }

  lemma ScanPasses(text: seq<byte>, start: nat, i: nat, split: int)
    requires InLine(text, start, i, split) && i < |text| && text[i] != NEWLINE
    ensures InLine(text, start, i + 1, if text[i] == EQUALS then i + 1 else split)
  {
    var part := text[start..i];
    SliceGrows(text, start, i);
    SplitGrows(part, split - start, text[i]);
    assert NEWLINE !in part + [text[i]];
  }

  lemma SliceGrows(s: seq<byte>, i: nat, j: nat)
    requires i <= j < |s|
    ensures s[i..j + 1] == s[i..j] + [s[j]]
  {
  }

  lemma SplitGrows(part: seq<byte>, split: int, c: byte)
    requires SplitAt(part, split)
    ensures SplitAt(part + [c], if c == EQUALS then |part| + 1 else split)
  {
    var longer := part + [c];
    assert longer[|longer| - 1] == c && longer[..|longer| - 1] == part;
  }

  lemma ApplyLinesOfMore(s: Settings, line: seq<byte>, rest: seq<seq<byte>>)
    ensures ApplyLines(s, [line] + rest) ==
      match ApplyLine(s, line)
      case None => None
      case Some(s') => ApplyLines(s', rest)
  {
    assert ([line] + rest)[1..] == rest;
  }

  lemma SuffixSplits(text: seq<byte>, start: nat, i: nat)
    requires start <= i < |text|
    ensures text[start..] == text[start..i] + [text[i]] + text[i + 1..]
    ensures text[i + 1..i + 1] == []
  {
  }

  lemma ScanEndsLine(text: seq<byte>, result: Option<Settings>, s: Settings, start: nat, i: nat, split: int)
    requires Scanned(text, result, s, start, i, split) && i < |text| && text[i] == NEWLINE
    ensures match ApplyLine(s, text[start..i])
      case None => result == None
      case Some(s') => Scanned(text, result, s', i + 1, i + 1, split)
  {
    SuffixSplits(text, start, i);
    FirstLine(text[start..i], text[i + 1..]);
    ApplyLinesOfMore(s, text[start..i], Lines(text[i + 1..]));
  }

  lemma ScanStops(text: seq<byte>, result: Option<Settings>, s: Settings, start: nat, split: int)
    requires Scanned(text, result, s, start, |text|, split)
    ensures result == Some(s)
  {
    assert text[start..] == text[start..|text|];
  }

  lemma SliceOfSlice(s: seq<byte>, i: nat, j: nat, k: nat)
    requires i <= j <= k <= |s|
    ensures s[i..k][..j - i] == s[i..j] && s[i..k][j - i..] == s[j..k]
  {
  }

  lemma FieldsInText(text: seq<byte>, startL: nat, splitL: int, endL: nat)
    requires 0 !in text && startL <= endL <= |text| && SplitAt(text[startL..endL], splitL - startL)
    ensures ParseLine(text[startL..endL]) ==
      if splitL <= startL || splitL - startL - 1 >= FIELD || endL - splitL >= FIELD then None
      else Some(Assignment(text[startL..splitL - 1], text[splitL..endL]))
    ensures startL < splitL ==> splitL <= endL && 0 !in text[startL..splitL - 1] && 0 !in text[splitL..endL]
  {
    FieldsOfLine(text[startL..endL], splitL - startL);
    if startL < splitL {
      SliceOfSlice(text, startL, splitL - 1, endL);
      SliceOfSlice(text, startL, splitL, endL);
    }
  }

  /** The work of the loop at a newline: both fields are copied out of the line and applied. */
  method EndLine(text: seq<byte>, startL: nat, splitL: int, endL: nat, s: Settings) returns (r: Option<Settings>)
    requires 0 !in text && startL <= endL <= |text| && SplitAt(text[startL..endL], splitL - startL)
    ensures r == ApplyLine(s, text[startL..endL])
  {
    FieldsInText(text, startL, splitL, endL);
    if splitL <= startL || splitL - startL - 1 >= FIELD || endL - splitL >= FIELD {
      return None;
    }
    var key, val := new byte[FIELD], new byte[FIELD];
    CopyField(key, text[startL..splitL - 1]);
    CopyField(val, text[splitL..endL]);
    r := ApplyFields(s, key, val, Assignment(text[startL..splitL - 1], text[splitL..endL]));
  }

  /** loadConfig's scan of the text before the buffer's NUL. It computes the fold of the lines;
      None stands for the lines on which the program's own behaviour is undefined. */
  method LoadConfig(text: seq<byte>, defaults: Settings) returns (r: Option<Settings>)
    requires 0 !in text
    ensures r == ApplyLines(defaults, Lines(text))
  {
    ghost var result := ApplyLines(defaults, Lines(text));
    var s := defaults;
    var startL, splitL, endL: nat := 0, 0, 0;
    assert text[0..] == text;
    for i := 0 to |text|
      invariant Scanned(text, result, s, startL, i, splitL)
    {
      if text[i] == EQUALS {
        ScanPasses(text, startL, i, splitL);
        splitL := i + 1;
      } else if text[i] == NEWLINE {
        ScanEndsLine(text, result, s, startL, i, splitL);
        endL := i;
        var next := EndLine(text, startL, splitL, endL, s);
        if next.None? {
          return None;
        }
        s := next.value;
        startL := i + 1;
      } else {
        ScanPasses(text, startL, i, splitL);
      }
    }
    ScanStops(text, result, s, startL, splitL);
    return Some(s);
  }
}
