/**
  validate_and_generate_error_codes: the nested loops over modules and submodules that extend
  one record list and count the module and submodule ids, followed by format_output. The loops
  are proved to compute Generate from module Hierarchy, so the whole run yields Output(modules).
*/
module Generator {
  import opened Wrappers
  import opened Encoder
  import opened Hierarchy
  import opened Renderer

  /** The header text for a hierarchy, or the first failure: an overflow, or no records at all. */
  function Output(modules: seq<Module>): Result<string, Failure>
  {
    match Generate(modules)
    case Err(f) => Err(f)
    case Ok(records) => Rendered(records)
  }

  lemma ChainAssoc(a: Records, b: Records, c: Records)
    ensures Chain(Chain(a, b), c) == Chain(a, Chain(b, c))
  {
    if a.Ok? && b.Ok? && c.Ok? {
      assert (a.value + b.value) + c.value == a.value + (b.value + c.value);
    }
  }

  /** Extending the collected records by one block: its failure, or the block appended. */
  lemma Extend(collected: seq<Record>, block: Records, rest: Records)
    ensures block.Err? ==> Chain(Ok(collected), Chain(block, rest)) == Err(block.error)
    ensures block.Ok? ==> Chain(Ok(collected), Chain(block, rest)) == Chain(Ok(collected + block.value), rest)
  {
    if block.Ok? && rest.Ok? {
      assert collected + (block.value + rest.value) == (collected + block.value) + rest.value;
    }
  }

  lemma ChainEmpty(rest: Records)
    ensures Chain(Ok([]), rest) == rest
  {
    if rest.Ok? {
      assert [] + rest.value == rest.value;
    }
  }

  /** The two nested loops: extend `all_errors` scope by scope while counting the ids up. */
  method CollectRecords(modules: seq<Module>) returns (r: Records)
    ensures r == Generate(modules)
  {
    var allErrors: seq<Record> := [];
    var moduleId := START_MODULE_ID;
    ChainEmpty(Generate(modules));
    for i := 0 to |modules|
      invariant moduleId == START_MODULE_ID + i
      invariant Generate(modules) == Chain(Ok(allErrors), ModulesFrom(modules[i..], moduleId))
    {
      var m := modules[i];
      assert modules[i..][1..] == modules[i + 1..];
      ghost var rest := ModulesFrom(modules[i + 1..], moduleId + MODULE_ID_INCREMENT);
      ghost var submodules := SubmodulesFrom(m.name, m.submodules, moduleId, START_SUBMODULE_ID);
      var direct := ProcessModule(m.name, None, m.errors, moduleId, 0);
      ChainAssoc(direct, submodules, rest);
      Extend(allErrors, direct, Chain(submodules, rest));
      if direct.Err? {
        return Err(direct.error);
      }
      allErrors := allErrors + direct.value;
      var submoduleId := START_SUBMODULE_ID;
      assert m.submodules[0..] == m.submodules;
      for j := 0 to |m.submodules|
        invariant submoduleId == START_SUBMODULE_ID + j
        invariant Generate(modules)
          == Chain(Ok(allErrors), Chain(SubmodulesFrom(m.name, m.submodules[j..], moduleId, submoduleId), rest))
      {
        var s := m.submodules[j];
        assert m.submodules[j..][1..] == m.submodules[j + 1..];
        ghost var later := SubmodulesFrom(m.name, m.submodules[j + 1..], moduleId, submoduleId + SUBMODULE_ID_INCREMENT);
        var block := ProcessModule(m.name, Some(s.name), s.errors, moduleId, submoduleId);
        ChainAssoc(block, later, rest);
        Extend(allErrors, block, Chain(later, rest));
        if block.Err? {
          return Err(block.error);
        }
        allErrors := allErrors + block.value;
        submoduleId := submoduleId + SUBMODULE_ID_INCREMENT;
      }
      assert m.submodules[|m.submodules|..] == [];
      ChainEmpty(rest);
      moduleId := moduleId + MODULE_ID_INCREMENT;
    }
    assert modules[|modules|..] == [];
    ChainEmpty(Ok(allErrors));
    assert allErrors + [] == allErrors;
    r := Ok(allErrors);
  }

  /** The loops, and then format_output on the records they collected; an overflow propagates. */
  method ValidateAndGenerateErrorCodes(modules: seq<Module>) returns (r: Result<string, Failure>)
    ensures r == Output(modules)
  {
    var records := CollectRecords(modules);
    if records.Err? {
      return Err(records.error);
    }
    r := FormatOutput(records.value);
  }

  /**
    A run succeeds exactly when every scope fits its bit widths and the hierarchy has at least one
    error entry; a hierarchy without errors fails in format_output.
  */
  lemma OutputOkIff(modules: seq<Module>)
    ensures Output(modules).Ok? <==>
      (forall i :: 0 <= i < |modules| ==> ModuleFits(modules[i], START_MODULE_ID + i)) && TotalErrors(modules) > 0
  {
    GenerateOkIff(modules);
    if Generate(modules).Ok? {
      GenerateCount(modules);
    }
  }

  /** A hierarchy whose scopes all fit but that has no error at all fails as `max()` of nothing. */
  lemma NoErrorsFails(modules: seq<Module>)
    requires forall i :: 0 <= i < |modules| ==> ModuleFits(modules[i], START_MODULE_ID + i)
    requires TotalErrors(modules) == 0
    ensures Output(modules) == Err(EmptyRecordList)
  {
    GenerateOkIff(modules);
    GenerateCount(modules);
  }
}
