/**
  The header renderer: `format_code` and `format_output`. The records are rendered as two line
  lists, the `#define` lines with their comment headers and the descriptor-table lines, which
  are joined with newlines between the fixed C header and footer.

  `format_output` walks the records once, keeping the module and submodule of the previous
  record. Walk below is that pass as a specification function; the method FormatOutput is the
  loop, proved to produce exactly Rendered(records).
*/
module Renderer {
  import opened Wrappers
  import opened Encoder
  import opened Hierarchy

  const C_HEADER: string := "#ifndef ERROR_CODES_H\n" + "#define ERROR_CODES_H\n" + "\n"
    + "// Auto-generated file. Do not edit. Changes will be overwritten.\n" + "\n" + "#include <error_codes_def.h>\n"
  const C_FOOTER: string := "#endif // ERROR_CODES_H\n"

  /** The first two lines of the descriptor table, before any entry. */
  const DESCRIPTIONS_PROLOGUE: seq<string> := ["#define EC_DEF_STRERROR_ARRAY \\", "static struct error_desc error_desc_array[] = { \\"]
  const DESCRIPTIONS_END: string := "}\n"
  const ENTRY_END: string := "\"}, \\"

  // ---------------------------------------------------------------------------------------------
  // format_code: "(-0x", the code in lower-case hexadecimal padded with zeros to 4 digits, ")"

  predicate IsLowerHexDigit(c: char)
  {
    '0' <= c <= '9' || 'a' <= c <= 'f'
  }

  function HexDigit(d: nat): (c: char)
    requires d < 16
    ensures IsLowerHexDigit(c)
  {
    if d < 10 then ('0' as int + d) as char else ('a' as int + d - 10) as char
  }

  function DigitValue(c: char): nat
    requires IsLowerHexDigit(c)
  {
    if c <= '9' then c as int - '0' as int else c as int - 'a' as int + 10
  }

  /** The number a string of hexadecimal digits denotes, most significant digit first. */
  function HexValue(s: string): nat
    requires forall i :: 0 <= i < |s| ==> IsLowerHexDigit(s[i])
  {
    if s == [] then 0 else 16 * HexValue(s[..|s| - 1]) + DigitValue(s[|s| - 1])
  }

  function Pow16(k: nat): (r: nat)
    ensures r >= 1
  {
    if k == 0 then 1 else 16 * Pow16(k - 1)
  }

  /** `format(n, 'x')`: the shortest lower-case hexadecimal digits of n ("0" for zero). */
  function LowerHex(n: nat): string
  {
    if n < 16 then [HexDigit(n)] else LowerHex(n / 16) + [HexDigit(n % 16)]
  }

  /** Left padding with '0' to at least `width` characters, as the `04` of the format spec does. */
  function ZeroPad(s: string, width: nat): string
    decreases width - |s|
  {
    if |s| >= width then s else ZeroPad("0" + s, width)
  }

  function FormatCode(code: nat): string
  {
    "(-0x" + ZeroPad(LowerHex(code), 4) + ")"
  }

  // ---------------------------------------------------------------------------------------------
  // Line builders

  function Spaces(n: nat): (r: string)
    ensures |r| == n && forall i :: 0 <= i < n ==> r[i] == ' '
  {
    seq(n, _ => ' ')
  }

  /** `str.ljust(width)`: s followed by spaces up to `width` characters; s itself when longer. */
  function LJust(s: string, width: nat): (r: string)
    ensures |r| == if |s| >= width then |s| else width
    ensures r[..|s|] == s
    ensures forall i :: |s| <= i < |r| ==> r[i] == ' '
  {
    if |s| >= width then s else s + Spaces(width - |s|)
  }

  /** The `max(len(error_name) ...)` of format_output; the caller ensures there is a record. */
  function MaxNameLength(records: seq<Record>): (w: nat)
    requires |records| > 0
    ensures forall k :: 0 <= k < |records| ==> |records[k].errorName| <= w
    ensures exists k :: 0 <= k < |records| && |records[k].errorName| == w
  {
    if |records| == 1 then |records[0].errorName|
    else
      var rest := MaxNameLength(records[1..]);
      assert forall k :: 1 <= k < |records| ==> records[k] == records[1..][k - 1];
      if |records[0].errorName| >= rest then |records[0].errorName| else rest
  }

  function ModuleComment(moduleName: string): string { "// " + moduleName }
  function ModuleTableComment(moduleName: string): string { "    /* " + moduleName + " */\\" }
  function SubmoduleComment(moduleName: string, submoduleName: string): string
  {
    "// " + moduleName + "::" + submoduleName
  }
  function SubmoduleTableComment(moduleName: string, submoduleName: string): string
  {
    "    /* " + moduleName + "::" + submoduleName + " */\\"
  }

  /** The `#define` of one error, its name padded to two more than the longest name. */
  function DefineLine(errorName: string, code: nat, width: nat): string
  {
    "#define " + LJust(errorName, width + 2) + " " + FormatCode(code)
  }

  /** The descriptor-table entry of one error, its description aligned after the longest name. */
  function DescriptorLine(errorName: string, description: string, width: nat): string
  {
    "    {" + errorName + ", " + Spaces(if |errorName| <= width then width - |errorName| else 0)
      + "\"" + description + ENTRY_END
  }

  // ---------------------------------------------------------------------------------------------
  // The pass over the records

  /** `current_module` and `current_submodule`: the names of the previous record, None at the start. */
  datatype Cursor = Cursor(currentModule: Option<string>, currentSubmodule: Option<string>)

  /** The two line lists built so far (`output` and `descriptions`) and the cursor. */
  datatype Rendering = Rendering(output: seq<string>, descriptions: seq<string>, cursor: Cursor)

  /**
    Whether record r gets a module header and a submodule header after the cursor c. A module
    header clears the current submodule before the submodule test.
  */
  function Headers(c: Cursor, r: Record): (bool, bool)
  {
    var moduleHeader := c.currentModule != Some(r.moduleName);
    var current := if moduleHeader then None else c.currentSubmodule;
    (moduleHeader, current != r.submoduleName && r.submoduleName.Some?)
  }

  /** One iteration of the loop of format_output: headers as needed, then the two lines of r. */
  function Step(st: Rendering, r: Record, width: nat): Rendering
  {
    var (moduleHeader, submoduleHeader) := Headers(st.cursor, r);
    var out1 := if moduleHeader && st.cursor.currentModule.Some? then st.output + [""] else st.output;
    var out2 := if moduleHeader then out1 + [ModuleComment(r.moduleName)] else out1;
    var desc2 := if moduleHeader then st.descriptions + [ModuleTableComment(r.moduleName)] else st.descriptions;
    var out3 := if submoduleHeader then out2 + [""] + [SubmoduleComment(r.moduleName, r.submoduleName.value)] else out2;
    var desc3 := if submoduleHeader then desc2 + [SubmoduleTableComment(r.moduleName, r.submoduleName.value)] else desc2;
    Rendering(
      out3 + [DefineLine(r.errorName, r.code, width)],
      desc3 + [DescriptorLine(r.errorName, r.description, width)],
      Cursor(Some(r.moduleName), r.submoduleName))
  }

  /** The loop of format_output over `records`, from the initial lists and no previous record. */
  function Walk(records: seq<Record>, width: nat): Rendering
  {
    if records == [] then Rendering([C_HEADER], DESCRIPTIONS_PROLOGUE, Cursor(None, None))
    else Step(Walk(records[..|records| - 1], width), records[|records| - 1], width)
  }

  lemma TakeOneMore<T>(s: seq<T>, i: nat)
    requires i < |s|
    ensures s[..i + 1] == s[..i] + [s[i]]
  {
  }

  lemma WalkSnoc(records: seq<Record>, r: Record, width: nat)
    ensures Walk(records + [r], width) == Step(Walk(records, width), r, width)
  {
    assert (records + [r])[..|records|] == records;
  }

  /** `"\n".join(lines)`. */
  function Join(lines: seq<string>): string
  {
    if lines == [] then "" else if |lines| == 1 then lines[0] else lines[0] + "\n" + Join(lines[1..])
  }

  /** The list that format_output joins: the walk's output, a blank line, the table, the footer. */
  function RenderedLines(records: seq<Record>): seq<string>
    requires |records| > 0
  {
    var st := Walk(records, MaxNameLength(records));
    st.output + [""] + (st.descriptions + [DESCRIPTIONS_END]) + [C_FOOTER]
  }

  /** format_output: the header text, or the failure of `max()` on an empty record list. */
  function Rendered(records: seq<Record>): (r: Result<string, Failure>)
    ensures r.Ok? <==> |records| > 0
    ensures r.Err? ==> r.error == EmptyRecordList
  {
    if |records| == 0 then Err(EmptyRecordList) else Ok(Join(RenderedLines(records)))
  }

  /**
    One iteration of the loop of format_output: the headers the record needs, then its `#define`
    line and its table entry; the record becomes the current module and submodule.
  */
  method AddRecord(output: seq<string>, descriptions: seq<string>, currentModule: Option<string>,
                   currentSubmodule: Option<string>, rec: Record, maxNameLength: nat)
    returns (output': seq<string>, descriptions': seq<string>, currentModule': Option<string>,
             currentSubmodule': Option<string>)
    ensures Rendering(output', descriptions', Cursor(currentModule', currentSubmodule'))
         == Step(Rendering(output, descriptions, Cursor(currentModule, currentSubmodule)), rec, maxNameLength)
  {
    output', descriptions', currentSubmodule' := output, descriptions, currentSubmodule;
    if currentModule != Some(rec.moduleName) {
      if currentModule.Some? {
        output' := output' + [""];
      }
      output' := output' + [ModuleComment(rec.moduleName)];
      descriptions' := descriptions' + [ModuleTableComment(rec.moduleName)];
      currentSubmodule' := None;
    }
    if currentSubmodule' != rec.submoduleName && rec.submoduleName.Some? {
      output' := output' + [""];
      output' := output' + [SubmoduleComment(rec.moduleName, rec.submoduleName.value)];
      descriptions' := descriptions' + [SubmoduleTableComment(rec.moduleName, rec.submoduleName.value)];
    }
    output' := output' + [DefineLine(rec.errorName, rec.code, maxNameLength)];
    descriptions' := descriptions' + [DescriptorLine(rec.errorName, rec.description, maxNameLength)];
    currentModule' := Some(rec.moduleName);
    currentSubmodule' := rec.submoduleName;
  }

  method FormatOutput(records: seq<Record>) returns (r: Result<string, Failure>)
    ensures r == Rendered(records)
  {
    if |records| == 0 {
      return Err(EmptyRecordList);
    }
    var maxNameLength := MaxNameLength(records);
    var output := [C_HEADER];
    var descriptions := DESCRIPTIONS_PROLOGUE;
    var currentModule: Option<string> := None;
    var currentSubmodule: Option<string> := None;
    for i := 0 to |records|
      invariant Walk(records[..i], maxNameLength) == Rendering(output, descriptions, Cursor(currentModule, currentSubmodule))
    {
      output, descriptions, currentModule, currentSubmodule :=
        AddRecord(output, descriptions, currentModule, currentSubmodule, records[i], maxNameLength);
      TakeOneMore(records, i);
      WalkSnoc(records[..i], records[i], maxNameLength);
    }
    assert records[..|records|] == records;
    descriptions := descriptions + [DESCRIPTIONS_END];
    output := output + [""];
    output := output + descriptions;
    output := output + [C_FOOTER];
    assert output == RenderedLines(records);
    r := Ok(Join(output));
  }

  // ---------------------------------------------------------------------------------------------
  // format_code: the digits are the lower-case hexadecimal value of the code, at least four

  /** Reading a formatted code back: "(-0x", hexadecimal digits, ")". */
  function ParseCode(s: string): Option<nat>
  {
    if |s| >= 6 && s[..4] == "(-0x" && s[|s| - 1] == ')' && forall i :: 4 <= i < |s| - 1 ==> IsLowerHexDigit(s[i])
    then Some(HexValue(s[4..|s| - 1]))
    else None
  }

  lemma {:induction false} LowerHexDigits(n: nat)
    ensures |LowerHex(n)| >= 1
    ensures forall i :: 0 <= i < |LowerHex(n)| ==> IsLowerHexDigit(LowerHex(n)[i])
    ensures HexValue(LowerHex(n)) == n
    ensures n < Pow16(|LowerHex(n)|)
    ensures |LowerHex(n)| > 1 ==> Pow16(|LowerHex(n)| - 1) <= n
    ensures n > 0 ==> LowerHex(n)[0] != '0'
  {
    if n >= 16 {
      LowerHexDigits(n / 16);
      var r := LowerHex(n);
      assert r == LowerHex(n / 16) + [HexDigit(n % 16)];
      assert r[..|r| - 1] == LowerHex(n / 16);
      assert HexValue(r) == 16 * (n / 16) + n % 16;
    }
  }

  /** c < 2^16 has at most four hexadecimal digits. */
  lemma FourDigits(code: nat)
    requires code < 65536
    ensures |LowerHex(code)| <= 4
  {
    LowerHexDigits(code);
    var k := |LowerHex(code)|;
    if k > 1 {
      Pow16FromFour(k - 1);
    }
  }

  lemma Pow16FromFour(j: nat)
    ensures j >= 4 ==> Pow16(j) >= 65536
  {
    if j >= 4 {
      assert Pow16(4) == 65536;
      Pow16Grows(4, j);
    }
  }

  /** Zeros in front leave the value of a digit string unchanged. */
  lemma {:induction false} LeadingZero(s: string)
    requires forall i :: 0 <= i < |s| ==> IsLowerHexDigit(s[i])
    ensures forall i :: 0 <= i < |"0" + s| ==> IsLowerHexDigit(("0" + s)[i])
    ensures HexValue("0" + s) == HexValue(s)
    decreases |s|
  {
    if s != [] {
      var t := "0" + s;
      assert t[..|t| - 1] == "0" + s[..|s| - 1];
      LeadingZero(s[..|s| - 1]);
    }
  }

  lemma {:induction false} ZeroPadDigits(s: string, width: nat)
    requires forall i :: 0 <= i < |s| ==> IsLowerHexDigit(s[i])
    ensures |ZeroPad(s, width)| == if |s| >= width then |s| else width
    ensures forall i :: 0 <= i < |ZeroPad(s, width)| ==> IsLowerHexDigit(ZeroPad(s, width)[i])
    ensures HexValue(ZeroPad(s, width)) == HexValue(s)
    ensures |ZeroPad(s, width)| > |s| ==> ZeroPad(s, width)[0] == '0'
    decreases width - |s|
  {
    if |s| < width {
      LeadingZero(s);
      ZeroPadDigits("0" + s, width);
    }
  }

  /**
    `format_code(c)` reads back as c, with at least four digits, exactly four for every code below
    2^16 (all encoder outputs), and no leading zero beyond the padding.
  */
  lemma FormatCodeReadsBack(code: nat)
    ensures ParseCode(FormatCode(code)) == Some(code)
    ensures |FormatCode(code)| >= 9
    ensures code < 65536 ==> |FormatCode(code)| == 9
    ensures |FormatCode(code)| > 9 ==> FormatCode(code)[4] != '0'
  {
    var hex := LowerHex(code);
    LowerHexDigits(code);
    ZeroPadDigits(hex, 4);
    var d := ZeroPad(hex, 4);
    var f := FormatCode(code);
    assert f == "(-0x" + d + ")";
    assert f[..4] == "(-0x";
    assert f[4..|f| - 1] == d;
    assert forall i :: 4 <= i < |f| - 1 ==> f[i] == d[i - 4];
    if code < 65536 {
      FourDigits(code);
    }
  }

  lemma {:induction false} Pow16Grows(k: nat, m: nat)
    requires k <= m
    ensures Pow16(k) <= Pow16(m)
    decreases m
  {
    if k < m {
      Pow16Grows(k, m - 1);
    }
  }

  lemma FormatCodeInjective(c1: nat, c2: nat)
    requires FormatCode(c1) == FormatCode(c2)
    ensures c1 == c2
  {
    FormatCodeReadsBack(c1);
    FormatCodeReadsBack(c2);
  }

  // ---------------------------------------------------------------------------------------------
  // Headers: when a record opens a module or a submodule block

  /** Before record i the cursor holds the names of record i - 1, or nothing before the first. */
  lemma CursorBefore(records: seq<Record>, i: nat, width: nat)
    requires i <= |records|
    ensures Walk(records[..i], width).cursor ==
      if i == 0 then Cursor(None, None) else Cursor(Some(records[i - 1].moduleName), records[i - 1].submoduleName)
  {
    if i > 0 {
      TakeOneMore(records, i - 1);
      WalkSnoc(records[..i - 1], records[i - 1], width);
    }
  }

  /** The headers format_output writes before record i. */
  function HeadersAt(records: seq<Record>, i: nat, width: nat): (bool, bool)
    requires i < |records|
  {
    Headers(Walk(records[..i], width).cursor, records[i])
  }

  /** A module header precedes record i exactly when its module name differs from the previous record's. */
  lemma ModuleHeaderIff(records: seq<Record>, i: nat, width: nat)
    requires i < |records|
    ensures HeadersAt(records, i, width).0 <==> (i == 0 || records[i - 1].moduleName != records[i].moduleName)
  {
    CursorBefore(records, i, width);
  }

  /**
    A submodule header precedes record i exactly when it belongs to a submodule and that
    submodule differs from the previous record's, or a module header was just written.
  */
  lemma SubmoduleHeaderIff(records: seq<Record>, i: nat, width: nat)
    requires i < |records|
    ensures HeadersAt(records, i, width).1 <==>
      records[i].submoduleName.Some? &&
      (i == 0 || records[i - 1].moduleName != records[i].moduleName || records[i - 1].submoduleName != records[i].submoduleName)
  {
    CursorBefore(records, i, width);
  }

  // ---------------------------------------------------------------------------------------------
  // One `#define` line and one descriptor line per record, in record order

  function Filter(lines: seq<string>, keep: string -> bool): (r: seq<string>)
    ensures forall k :: 0 <= k < |r| ==> keep(r[k])
  {
    if lines == [] then [] else (if keep(lines[0]) then [lines[0]] else []) + Filter(lines[1..], keep)
  }

  lemma {:induction false} FilterConcat(a: seq<string>, b: seq<string>, keep: string -> bool)
    ensures Filter(a + b, keep) == Filter(a, keep) + Filter(b, keep)
    decreases |a|
  {
    if a != [] {
      var first := if keep(a[0]) then [a[0]] else [];
      assert (a + b)[0] == a[0];
      assert (a + b)[1..] == a[1..] + b;
      assert Filter(a + b, keep) == first + Filter(a[1..] + b, keep);
      FilterConcat(a[1..], b, keep);
      assert first + (Filter(a[1..], keep) + Filter(b, keep)) == (first + Filter(a[1..], keep)) + Filter(b, keep);
    } else {
      assert a + b == b;
    }
  }

  predicate IsDefine(line: string)
  {
    |line| >= 8 && line[..8] == "#define "
  }

  /** Table entries are the lines that end in `"}, \`. */
  predicate IsDescriptor(line: string)
  {
    |line| >= 5 && line[|line| - 5..] == ENTRY_END
  }

  /** The `#define` lines the records get, in record order. */
  function Defines(records: seq<Record>, width: nat): (r: seq<string>)
    ensures |r| == |records|
  {
    if records == [] then []
    else Defines(records[..|records| - 1], width) + [DefineLine(records[|records| - 1].errorName, records[|records| - 1].code, width)]
  }

  /** The descriptor-table entries the records get, in record order. */
  function Descriptors(records: seq<Record>, width: nat): (r: seq<string>)
    ensures |r| == |records|
  {
    if records == [] then []
    else Descriptors(records[..|records| - 1], width) + [DescriptorLine(records[|records| - 1].errorName, records[|records| - 1].description, width)]
  }

  lemma FilterSnoc(lines: seq<string>, line: string, keep: string -> bool)
    ensures Filter(lines + [line], keep) == Filter(lines, keep) + (if keep(line) then [line] else [])
  {
    FilterConcat(lines, [line], keep);
    assert Filter([line], keep) == (if keep(line) then [line] else []) + Filter([], keep);
  }

  lemma NoDefineInHeaders(moduleName: string, submoduleName: string)
    ensures !IsDefine("") && !IsDefine(ModuleComment(moduleName)) && !IsDefine(SubmoduleComment(moduleName, submoduleName))
    ensures !IsDescriptor(ModuleTableComment(moduleName)) && !IsDescriptor(SubmoduleTableComment(moduleName, submoduleName))
  {
    assert ModuleComment(moduleName)[0] == '/';
    assert SubmoduleComment(moduleName, submoduleName)[0] == '/';
    var m, n := ModuleTableComment(moduleName), SubmoduleTableComment(moduleName, submoduleName);
    assert m[|m| - 2] == '/' && n[|n| - 2] == '/';
  }

  /** One iteration adds exactly one `#define` line, the record's, after the lines before it. */
  lemma StepDefines(st: Rendering, r: Record, width: nat)
    ensures Filter(Step(st, r, width).output, IsDefine) == Filter(st.output, IsDefine) + [DefineLine(r.errorName, r.code, width)]
  {
    var (moduleHeader, submoduleHeader) := Headers(st.cursor, r);
    var define := DefineLine(r.errorName, r.code, width);
    assert define[..8] == "#define ";
    var sub := if r.submoduleName.Some? then r.submoduleName.value else "";
    NoDefineInHeaders(r.moduleName, sub);
    var out1 := if moduleHeader && st.cursor.currentModule.Some? then st.output + [""] else st.output;
    var out2 := if moduleHeader then out1 + [ModuleComment(r.moduleName)] else out1;
    var out3 := if submoduleHeader then out2 + [""] + [SubmoduleComment(r.moduleName, sub)] else out2;
    if moduleHeader && st.cursor.currentModule.Some? { FilterSnoc(st.output, "", IsDefine); }
    assert Filter(out1, IsDefine) == Filter(st.output, IsDefine);
    if moduleHeader { FilterSnoc(out1, ModuleComment(r.moduleName), IsDefine); }
    assert Filter(out2, IsDefine) == Filter(st.output, IsDefine);
    if submoduleHeader {
      FilterSnoc(out2, "", IsDefine);
      FilterSnoc(out2 + [""], SubmoduleComment(r.moduleName, sub), IsDefine);
    }
    assert Filter(out3, IsDefine) == Filter(st.output, IsDefine);
    FilterSnoc(out3, define, IsDefine);
    assert Step(st, r, width).output == out3 + [define];
  }

  /** One iteration adds exactly one table entry, the record's, after the entries before it. */
  lemma StepDescriptors(st: Rendering, r: Record, width: nat)
    ensures Filter(Step(st, r, width).descriptions, IsDescriptor)
      == Filter(st.descriptions, IsDescriptor) + [DescriptorLine(r.errorName, r.description, width)]
  {
    var (moduleHeader, submoduleHeader) := Headers(st.cursor, r);
    var entry := DescriptorLine(r.errorName, r.description, width);
    assert entry[|entry| - 5..] == ENTRY_END;
    var sub := if r.submoduleName.Some? then r.submoduleName.value else "";
    NoDefineInHeaders(r.moduleName, sub);
    var desc2 := if moduleHeader then st.descriptions + [ModuleTableComment(r.moduleName)] else st.descriptions;
    var desc3 := if submoduleHeader then desc2 + [SubmoduleTableComment(r.moduleName, sub)] else desc2;
    if moduleHeader { FilterSnoc(st.descriptions, ModuleTableComment(r.moduleName), IsDescriptor); }
    assert Filter(desc2, IsDescriptor) == Filter(st.descriptions, IsDescriptor);
    if submoduleHeader { FilterSnoc(desc2, SubmoduleTableComment(r.moduleName, sub), IsDescriptor); }
    assert Filter(desc3, IsDescriptor) == Filter(st.descriptions, IsDescriptor);
    FilterSnoc(desc3, entry, IsDescriptor);
    assert Step(st, r, width).descriptions == desc3 + [entry];
  }

  /** The C header is not the `#define` of an error. */
  lemma HeaderNoDefine()
    ensures Filter([C_HEADER], IsDefine) == []
  {
    assert C_HEADER[1] == 'i';
    FilterSnoc([], C_HEADER, IsDefine);
  }

  /** The two fixed first lines of the table are not entries. */
  lemma PrologueNoEntry()
    ensures Filter(DESCRIPTIONS_PROLOGUE, IsDescriptor) == []
  {
    var p0, p1 := DESCRIPTIONS_PROLOGUE[0], DESCRIPTIONS_PROLOGUE[1];
    assert p0[|p0| - 3] == 'Y' && p1[|p1| - 3] == '{';
    FilterSnoc([], p0, IsDescriptor);
    FilterSnoc([p0], p1, IsDescriptor);
    assert [p0] + [p1] == DESCRIPTIONS_PROLOGUE;
  }

  /**
    Leaving out headers, blank lines and the fixed prologue, the walk's output is the `#define` line
    of every record in record order, and its table is the descriptor entry of every record.
  */
  lemma {:induction false} WalkLinesInOrder(records: seq<Record>, width: nat)
    ensures Filter(Walk(records, width).output, IsDefine) == Defines(records, width)
    ensures Filter(Walk(records, width).descriptions, IsDescriptor) == Descriptors(records, width)
    decreases |records|
  {
    if records == [] {
      HeaderNoDefine();
      PrologueNoEntry();
    } else {
      var init, last := records[..|records| - 1], records[|records| - 1];
      assert Walk(records, width) == Step(Walk(init, width), last, width);
      WalkLinesInOrder(init, width);
      StepDefines(Walk(init, width), last, width);
      StepDescriptors(Walk(init, width), last, width);
    }
  }

  // ---------------------------------------------------------------------------------------------
  // Alignment: every code and every description starts in the same column

  /** With names no longer than `width`, the code of a `#define` line starts at column width + 11. */
  lemma DefineColumns(errorName: string, code: nat, width: nat)
    requires |errorName| <= width
    ensures var line := DefineLine(errorName, code, width);
      && |line| == width + 11 + |FormatCode(code)|
      && line[..8 + |errorName|] == "#define " + errorName
      && (forall i :: 8 + |errorName| <= i < width + 11 ==> line[i] == ' ')
      && line[width + 11..] == FormatCode(code)
  {
    var line := DefineLine(errorName, code, width);
    var padded := LJust(errorName, width + 2);
    assert line == "#define " + padded + " " + FormatCode(code);
    assert forall i :: 8 <= i < width + 10 ==> line[i] == padded[i - 8];
  }

  /** With names no longer than `width`, the description of an entry starts at column width + 8. */
  lemma DescriptorColumns(errorName: string, description: string, width: nat)
    requires |errorName| <= width
    ensures var line := DescriptorLine(errorName, description, width);
      && line[..5 + |errorName|] == "    {" + errorName
      && line[5 + |errorName|..width + 7] == ", " + Spaces(width - |errorName|)
      && line[width + 7..] == "\"" + description + ENTRY_END
  {
  }
}
