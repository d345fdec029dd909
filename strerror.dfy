/**
  my_strerror: a linear search over the generated `(code, description)` table with a fallback
  string. The table is modelled as an array of pairs that the lookup only reads; the lookup is
  proved to compute Describe, whose first-match behaviour is stated by the lemmas below.
*/
module StrError {
  import opened Wrappers
  import opened Hierarchy

  /** One `error_desc_array` entry: the C value of the macro (a negative code) and its text. */
  datatype ErrorDesc = ErrorDesc(code: int, description: string)

  const UNKNOWN_ERROR := "Unknown error"

  /** Reference definition: the description of the first entry carrying `code`, or the fallback. */
  function Describe(table: seq<ErrorDesc>, code: int): string
  {
    if table == [] then UNKNOWN_ERROR
    else if table[0].code == code then table[0].description
    else Describe(table[1..], code)
  }

  /** The lookup; it only reads the table, which it has no licence to modify. */
  method MyStrError(table: array<ErrorDesc>, code: int) returns (d: string)
    ensures d == Describe(table[..], code)
  {
    assert table[0..] == table[..];
    for i := 0 to table.Length
      invariant Describe(table[..], code) == Describe(table[i..], code)
    {
      if code == table[i].code {
        return table[i].description;
      }
      assert table[i..][1..] == table[i + 1..];
    }
    return UNKNOWN_ERROR;
  }

  /** The lowest-index entry carrying `code` supplies the description. */
  lemma {:induction false} DescribeFirstMatch(table: seq<ErrorDesc>, code: int, k: nat)
    requires k < |table| && table[k].code == code
    requires forall j :: 0 <= j < k ==> table[j].code != code
    ensures Describe(table, code) == table[k].description
  {
    if k > 0 {
      assert table[0].code != code;
      assert table[1..][k - 1] == table[k];
      DescribeFirstMatch(table[1..], code, k - 1);
    }
  }

  /** Without a matching entry, the empty table included, the fallback text is returned. */
  lemma {:induction false} DescribeNoMatch(table: seq<ErrorDesc>, code: int)
    requires forall j :: 0 <= j < |table| ==> table[j].code != code
    ensures Describe(table, code) == UNKNOWN_ERROR
  {
    if table != [] {
      assert table[0].code != code;
      DescribeNoMatch(table[1..], code);
    }
  }

  predicate DistinctCodes(table: seq<ErrorDesc>)
  {
    forall i, j :: 0 <= i < j < |table| ==> table[i].code != table[j].code
  }

  /** With distinct codes, every entry's code looks up that entry's own description. */
  lemma DescribeDistinct(table: seq<ErrorDesc>, k: nat)
    requires DistinctCodes(table)
    requires k < |table|
    ensures Describe(table, table[k].code) == table[k].description
  {
    DescribeFirstMatch(table, table[k].code, k);
  }

  /** The search stops at a match: entries appended after it are never consulted. */
  lemma {:induction false} DescribeIgnoresLater(table: seq<ErrorDesc>, later: seq<ErrorDesc>, code: int, k: nat)
    requires k < |table| && table[k].code == code
    ensures Describe(table + later, code) == Describe(table, code)
  {
    if table[0].code != code {
      assert (table + later)[1..] == table[1..] + later;
      assert table[1..][k - 1] == table[k];
      DescribeIgnoresLater(table[1..], later, code, k - 1);
    }
  }

  // ---------------------------------------------------------------------------------------------
  // The table generated from the records

  /**
    The index of the last of the first `n` records whose error is named `name`, or -1 when there is
    none: the `#define` of that name that a later use of the macro sees.
  */
  function LastNamed(records: seq<Record>, name: string, n: nat): (j: int)
    requires n <= |records|
    ensures -1 <= j < n
    ensures j >= 0 ==> records[j].errorName == name
    ensures forall i :: j < i < n ==> records[i].errorName != name
    decreases n
  {
    if n == 0 then -1
    else if records[n - 1].errorName == name then n - 1
    else LastNamed(records, name, n - 1)
  }

  /** The index of the first record, from index `from` on, whose error is named `name`, or |records|. */
  function FirstNamed(records: seq<Record>, name: string, from: nat): (j: nat)
    requires from <= |records|
    ensures from <= j <= |records|
    ensures j < |records| ==> records[j].errorName == name
    ensures forall i :: from <= i < j ==> records[i].errorName != name
    decreases |records| - from
  {
    if from == |records| then from
    else if records[from].errorName == name then from
    else FirstNamed(records, name, from + 1)
  }

  /**
    The C value of the macro named after record k's error, where the whole header has been read:
    the negated code of the last record of that name, since a later `#define` of a name replaces an
    earlier one.
  */
  function MacroValue(records: seq<Record>, k: nat): int
    requires k < |records|
  {
    var j := LastNamed(records, records[k].errorName, |records|);
    assert j >= k;
    -(records[j].code as int)
  }

  /**
    The `EC_DEF_STRERROR_ARRAY` entries, in record order: each pairs the value of the macro that
    names the error with the error's description.
  */
  function GeneratedTable(records: seq<Record>): seq<ErrorDesc>
  {
    seq(|records|, k requires 0 <= k < |records| => ErrorDesc(MacroValue(records, k), records[k].description))
  }

  /** No two records share an error name: the names are unique across the whole hierarchy. */
  predicate UniqueNames(records: seq<Record>)
  {
    forall i, j :: 0 <= i < j < |records| ==> records[i].errorName != records[j].errorName
  }

  /** With distinct codes, two records' macros have the same value exactly when they have the same name. */
  lemma MacroValueByName(records: seq<Record>, i: nat, k: nat)
    requires Increasing(records)
    requires i < |records| && k < |records|
    ensures MacroValue(records, i) == MacroValue(records, k) <==> records[i].errorName == records[k].errorName
  {
    var li := LastNamed(records, records[i].errorName, |records|);
    var lk := LastNamed(records, records[k].errorName, |records|);
    if MacroValue(records, i) == MacroValue(records, k) {
      assert records[li].code == records[lk].code;
      assert li == lk;
    }
  }

  /** The generated table has distinct codes exactly when the error names are unique. */
  lemma GeneratedDistinct(records: seq<Record>)
    requires Increasing(records)
    ensures DistinctCodes(GeneratedTable(records)) <==> UniqueNames(records)
  {
    var table := GeneratedTable(records);
    if UniqueNames(records) {
      forall i, j | 0 <= i < j < |table| ensures table[i].code != table[j].code {
        MacroValueByName(records, i, j);
      }
    }
    if DistinctCodes(table) {
      forall i, j | 0 <= i < j < |records| ensures records[i].errorName != records[j].errorName {
        MacroValueByName(records, i, j);
        assert table[i].code != table[j].code;
      }
    }
  }

  /**
    For a generated header, the value of an error's macro looks up the description of the first
    error of that name; when no earlier error shares its name, that is the error's own description.
  */
  lemma LookupGenerated(modules: seq<Module>, k: nat)
    requires Generate(modules).Ok?
    requires k < |Generate(modules).value|
    ensures var records := Generate(modules).value;
      Describe(GeneratedTable(records), MacroValue(records, k))
      == records[FirstNamed(records, records[k].errorName, 0)].description
    ensures var records := Generate(modules).value;
      (forall j :: 0 <= j < k ==> records[j].errorName != records[k].errorName) ==>
      Describe(GeneratedTable(records), MacroValue(records, k)) == records[k].description
  {
    var records := Generate(modules).value;
    var table := GeneratedTable(records);
    GenerateOrdered(modules);
    var f := FirstNamed(records, records[k].errorName, 0);
    forall j | 0 <= j < f ensures table[j].code != MacroValue(records, k) {
      MacroValueByName(records, j, k);
    }
    MacroValueByName(records, f, k);
    DescribeFirstMatch(table, MacroValue(records, k), f);
  }

  /**
    Looking up the negated code of record k itself: an error whose name is defined again later has
    a code no macro carries, so it is unknown; otherwise its code is its macro's value.
  */
  lemma LookupOwnCode(modules: seq<Module>, k: nat)
    requires Generate(modules).Ok?
    requires k < |Generate(modules).value|
    ensures var records := Generate(modules).value;
      LastNamed(records, records[k].errorName, |records|) == k ==>
      Describe(GeneratedTable(records), -(records[k].code as int))
      == records[FirstNamed(records, records[k].errorName, 0)].description
    ensures var records := Generate(modules).value;
      LastNamed(records, records[k].errorName, |records|) != k ==>
      Describe(GeneratedTable(records), -(records[k].code as int)) == UNKNOWN_ERROR
  {
    var records := Generate(modules).value;
    var table := GeneratedTable(records);
    GenerateOrdered(modules);
    var last := LastNamed(records, records[k].errorName, |records|);
    if last == k {
      LookupGenerated(modules, k);
    } else {
      forall j | 0 <= j < |table| ensures table[j].code != -(records[k].code as int) {
        var lj := LastNamed(records, records[j].errorName, |records|);
        if lj < k { assert records[lj].code < records[k].code; }
        if k < lj { assert records[k].code < records[lj].code; }
      }
      DescribeNoMatch(table, -(records[k].code as int));
    }
  }

  /**
    The same error name in two modules, which the generator accepts: the first module's error gets
    code 0x0801 and the second's 0x1001. Both macros read -0x1001 once the header is read, so that
    value finds the first module's description, and the first module's own code -0x0801 is unknown.
  */
  lemma RepeatedNameAcrossModules(a: Module, b: Module)
    requires |a.errors| == 1 && a.submodules == [] && |b.errors| == 1 && b.submodules == []
    requires a.errors[0].name == b.errors[0].name
    ensures Generate([a, b]) == Ok([Record(a.name, None, a.errors[0].name, 0x0801, a.errors[0].description),
                                    Record(b.name, None, b.errors[0].name, 0x1001, b.errors[0].description)])
    ensures MacroValue(Generate([a, b]).value, 0) == -0x1001 && MacroValue(Generate([a, b]).value, 1) == -0x1001
    ensures Describe(GeneratedTable(Generate([a, b]).value), -0x1001) == a.errors[0].description
    ensures Describe(GeneratedTable(Generate([a, b]).value), -0x0801) == UNKNOWN_ERROR
  {
    TwoSingleErrorModules([a, b]);
    var records := Generate([a, b]).value;
    assert LastNamed(records, a.errors[0].name, 2) == 1;
    assert FirstNamed(records, a.errors[0].name, 0) == 0;
    LookupGenerated([a, b], 1);
    LookupOwnCode([a, b], 0);
  }

  /** Two modules of one direct error each: their records carry codes 0x0801 and 0x1001. */
  lemma TwoSingleErrorModules(modules: seq<Module>)
    requires |modules| == 2
    requires |modules[0].errors| == 1 && modules[0].submodules == []
    requires |modules[1].errors| == 1 && modules[1].submodules == []
    ensures Generate(modules)
         == Ok([Record(modules[0].name, None, modules[0].errors[0].name, 0x0801, modules[0].errors[0].description),
                Record(modules[1].name, None, modules[1].errors[0].name, 0x1001, modules[1].errors[0].description)])
  {
    var a, b := modules[0], modules[1];
    var ra := Record(a.name, None, a.errors[0].name, 0x0801, a.errors[0].description);
    var rb := Record(b.name, None, b.errors[0].name, 0x1001, b.errors[0].description);
    SingleErrorModule(a, 1);
    SingleErrorModule(b, 2);
    ModulesPair(modules, [ra], [rb]);
    Pair(ra, rb);
  }

  /** Two modules whose iterations (module ids 1 and 2) succeed generate their records joined. */
  lemma ModulesPair(modules: seq<Module>, first: seq<Record>, second: seq<Record>)
    requires |modules| == 2
    requires ModuleRecords(modules[0], 1) == Ok(first) && ModuleRecords(modules[1], 2) == Ok(second)
    ensures Generate(modules) == Ok(first + second)
  {
    assert modules[1..] == [modules[1]];
    LastModule(modules[1], 2);
    assert ModulesFrom(modules, 1) == Chain(ModuleRecords(modules[0], 1), ModulesFrom(modules[1..], 2));
  }

  lemma Pair<T>(x: T, y: T)
    ensures [x] + [y] == [x, y]
  {
  }

  /** The module loop over a single module is that module's iteration. */
  lemma LastModule(m: Module, moduleId: nat)
    ensures ModulesFrom([m], moduleId) == ModuleRecords(m, moduleId)
  {
    assert [m][1..] == [];
    var r := ModuleRecords(m, moduleId);
    if r.Ok? {
      assert r.value + [] == r.value;
    }
  }

  /** A module with one direct error and no submodules yields that error's single record. */
  lemma SingleErrorModule(m: Module, moduleId: nat)
    requires |m.errors| == 1 && m.submodules == [] && moduleId <= 31
    ensures ModuleRecords(m, moduleId)
         == Ok([Record(m.name, None, m.errors[0].name, moduleId * 2048 + 1, m.errors[0].description)])
  {
    var block := ProcessModule(m.name, None, m.errors, moduleId, 0);
    assert ScopeFits(moduleId, 0, 1);
    assert |block.value| == 1;
    assert block.value == [Record(m.name, None, m.errors[0].name, moduleId * 2048 + 1, m.errors[0].description)];
    assert SubmodulesFrom(m.name, [], moduleId, 1) == Ok([]);
    assert block.value + [] == block.value;
  }

  /** No generated entry has a value above -2048, so 0 (success) and positive values are unknown. */
  lemma SuccessUnknown(modules: seq<Module>, code: int)
    requires Generate(modules).Ok?
    requires code > -2048
    ensures Describe(GeneratedTable(Generate(modules).value), code) == UNKNOWN_ERROR
  {
    var records := Generate(modules).value;
    GenerateOrdered(modules);
    var table := GeneratedTable(records);
    forall j | 0 <= j < |table|
      ensures table[j].code != code
    {
      var last := LastNamed(records, records[j].errorName, |records|);
      assert records[last].code >= 2048;
    }
    DescribeNoMatch(table, code);
  }
}
