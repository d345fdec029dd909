/**
  The hierarchy walker of the error-code generator as pure specification functions: the input
  hierarchy (modules in insertion order, each with its own errors and its submodules), the
  resolved records, `process_module`, and the order and counters in which
  `validate_and_generate_error_codes` visits the hierarchy. The loop itself is the method in
  module Generator, proved equal to Generate below.

  A missing `errors` or `submodules` key is an empty sequence. A raised exception is an `Err`,
  and the first one raised is the one returned.
*/
module Hierarchy {
  import opened Wrappers
  import opened Encoder

  /** One entry of an `errors` mapping: the error name (its key) and its description. */
  datatype ErrorEntry = ErrorEntry(name: string, description: string)

  /** A submodule: its name (its key) and its errors in insertion order. */
  datatype Submodule = Submodule(name: string, errors: seq<ErrorEntry>)

  /** A module: its name (its key), its direct errors and its submodules, in insertion order. */
  datatype Module = Module(name: string, errors: seq<ErrorEntry>, submodules: seq<Submodule>)

  /** The resolved tuple (module name, submodule name or None, error name, code, description). */
  datatype Record = Record(
    moduleName: string,
    submoduleName: Option<string>,
    errorName: string,
    code: nat,
    description: string)

  type Records = Result<seq<Record>, Failure>

  /** `all_errors.extend(...)` in sequence: the first failure wins, otherwise the lists are joined. */
  function Chain(a: Records, b: Records): Records
  {
    if a.Err? then a else if b.Err? then b else Ok(a.value + b.value)
  }

  /** A scope of `n` errors encodes under these ids: it is empty, or its ids and its last error id fit. */
  predicate ScopeFits(moduleId: nat, submoduleId: nat, n: nat)
  {
    n == 0 || (moduleId <= 31 && submoduleId <= 31 && n <= 63)
  }

  /** The overflow raised by the first failing encoding of a scope whose error ids start at `errorId`. */
  function ScopeFailure(moduleId: nat, submoduleId: nat, errorId: nat): Failure
  {
    if moduleId > 31 then EncodingOverflow(ModuleId, moduleId, 5)
    else if submoduleId > 31 then EncodingOverflow(SubmoduleId, submoduleId, 5)
    else EncodingOverflow(ErrorId, if errorId > 64 then errorId else 64, 6)
  }

  /** The comprehension of process_module, from the entry whose error id is `errorId` on. */
  function ProcessFrom(moduleName: string, submoduleName: Option<string>, errors: seq<ErrorEntry>,
                       moduleId: nat, submoduleId: nat, errorId: nat): (r: Records)
    ensures r.Ok? <==> |errors| == 0 || (moduleId <= 31 && submoduleId <= 31 && errorId + |errors| <= 64)
    ensures r.Ok? ==> |r.value| == |errors|
    ensures r.Ok? ==> forall k :: 0 <= k < |errors| ==>
      r.value[k] == Record(moduleName, submoduleName, errors[k].name,
                           moduleId * 2048 + submoduleId * 64 + errorId + k, errors[k].description)
    ensures r.Err? ==> r.error == ScopeFailure(moduleId, submoduleId, errorId)
    decreases |errors|
  {
    if errors == [] then Ok([])
    else
      match EncodeErrorCode(moduleId, submoduleId, errorId)
      case Err(f) => Err(f)
      case Ok(code) =>
        var head := Record(moduleName, submoduleName, errors[0].name, code, errors[0].description);
        match ProcessFrom(moduleName, submoduleName, errors[1..], moduleId, submoduleId, errorId + 1)
        case Err(f) => Err(f)
        case Ok(rest) => Ok([head] + rest)
  }

  /**
    process_module: one record per error entry, in insertion order; the k-th entry (from 0) gets
    error id k + 1, and every record carries the given names and ids.
  */
  function ProcessModule(moduleName: string, submoduleName: Option<string>, errors: seq<ErrorEntry>,
                         moduleId: nat, submoduleId: nat): (r: Records)
    ensures r.Ok? <==> ScopeFits(moduleId, submoduleId, |errors|)
    ensures r.Ok? ==> |r.value| == |errors|
    ensures r.Ok? ==> forall k :: 0 <= k < |errors| ==>
      r.value[k] == Record(moduleName, submoduleName, errors[k].name,
                           moduleId * 2048 + submoduleId * 64 + k + 1, errors[k].description)
    ensures r.Err? ==> r.error == ScopeFailure(moduleId, submoduleId, START_ERROR_ID)
  {
    ProcessFrom(moduleName, submoduleName, errors, moduleId, submoduleId, START_ERROR_ID)
  }

  /** The submodule loop of one module: submodule ids count up from `submoduleId`, one per submodule. */
  function SubmodulesFrom(moduleName: string, submodules: seq<Submodule>, moduleId: nat, submoduleId: nat): Records
    decreases |submodules|
  {
    if submodules == [] then Ok([])
    else
      Chain(ProcessModule(moduleName, Some(submodules[0].name), submodules[0].errors, moduleId, submoduleId),
            SubmodulesFrom(moduleName, submodules[1..], moduleId, submoduleId + SUBMODULE_ID_INCREMENT))
  }

  /** One iteration of the module loop: the direct errors with submodule id 0, then the submodules. */
  function ModuleRecords(m: Module, moduleId: nat): Records
  {
    Chain(ProcessModule(m.name, None, m.errors, moduleId, 0),
          SubmodulesFrom(m.name, m.submodules, moduleId, START_SUBMODULE_ID))
  }

  /** The module loop from the module whose id is `moduleId` on. */
  function ModulesFrom(modules: seq<Module>, moduleId: nat): Records
    decreases |modules|
  {
    if modules == [] then Ok([])
    else Chain(ModuleRecords(modules[0], moduleId), ModulesFrom(modules[1..], moduleId + MODULE_ID_INCREMENT))
  }

  /** The records that validate_and_generate_error_codes hands to format_output, or the first overflow. */
  function Generate(modules: seq<Module>): Records
  {
    ModulesFrom(modules, START_MODULE_ID)
  }

  // ---------------------------------------------------------------------------------------------
  // Reference notions the lemmas use

  /** Every scope of a module with this id encodes: its direct errors and each submodule j with id j + 1. */
  predicate ModuleFits(m: Module, moduleId: nat)
  {
    && ScopeFits(moduleId, 0, |m.errors|)
    && forall j :: 0 <= j < |m.submodules| ==> ScopeFits(moduleId, START_SUBMODULE_ID + j, |m.submodules[j].errors|)
  }

  function Flatten(blocks: seq<seq<Record>>): seq<Record>
  {
    if blocks == [] then [] else blocks[0] + Flatten(blocks[1..])
  }

  /** `f` applied to each element of `xs` and its id, the ids counting up from `first` by one. */
  function Numbered<T, U>(xs: seq<T>, first: nat, f: (T, nat) -> U): (r: seq<U>)
    ensures |r| == |xs|
    ensures forall i :: 0 <= i < |xs| ==> r[i] == f(xs[i], first + i)
    decreases |xs|
  {
    if xs == [] then [] else [f(xs[0], first)] + Numbered(xs[1..], first + 1, f)
  }

  /** The records of each submodule, the j-th with submodule id `submoduleId + j`. */
  function SubmoduleBlocks(moduleName: string, submodules: seq<Submodule>, moduleId: nat, submoduleId: nat): seq<seq<Record>>
  {
    Numbered(submodules, submoduleId,
      (s: Submodule, id: nat) => ProcessModule(moduleName, Some(s.name), s.errors, moduleId, id).GetOr([]))
  }

  /** The records of each module, the i-th with module id `moduleId + i`. */
  function ModuleBlocks(modules: seq<Module>, moduleId: nat): seq<seq<Record>>
  {
    Numbered(modules, moduleId, (m: Module, id: nat) => ModuleRecords(m, id).GetOr([]))
  }

  function SubmoduleErrorCount(submodules: seq<Submodule>): nat
  {
    if submodules == [] then 0 else |submodules[0].errors| + SubmoduleErrorCount(submodules[1..])
  }

  function ModuleErrorCount(m: Module): nat
  {
    |m.errors| + SubmoduleErrorCount(m.submodules)
  }

  /** The number of error entries in the whole hierarchy. */
  function TotalErrors(modules: seq<Module>): nat
  {
    if modules == [] then 0 else ModuleErrorCount(modules[0]) + TotalErrors(modules[1..])
  }

  predicate Increasing(rs: seq<Record>)
  {
    forall i, j :: 0 <= i < j < |rs| ==> rs[i].code < rs[j].code
  }

  predicate AllIn(rs: seq<Record>, lo: int, hi: int)
  {
    forall k :: 0 <= k < |rs| ==> lo <= rs[k].code < hi
  }

  /** The codes of a result, or its failure. */
  function CodesOf(r: Records): Result<seq<nat>, Failure>
  {
    match r
    case Err(f) => Err(f)
    case Ok(rs) => Ok(seq(|rs|, k requires 0 <= k < |rs| => rs[k].code))
  }

  /** Two hierarchies with the same number of modules, submodules and errors in each scope. */
  predicate SameLayout(a: seq<Module>, b: seq<Module>)
  {
    |a| == |b| && forall i :: 0 <= i < |a| ==> SameModuleLayout(a[i], b[i])
  }

  predicate SameModuleLayout(m1: Module, m2: Module)
  {
    && |m1.errors| == |m2.errors|
    && SameSubmoduleLayout(m1.submodules, m2.submodules)
  }

  predicate SameSubmoduleLayout(s1: seq<Submodule>, s2: seq<Submodule>)
  {
    |s1| == |s2| && forall j :: 0 <= j < |s1| ==> |s1[j].errors| == |s2[j].errors|
  }

  // ---------------------------------------------------------------------------------------------
  // All-or-nothing: when generation succeeds, and which overflow it reports when it does not

  lemma {:induction false} SubmodulesOkIff(moduleName: string, submodules: seq<Submodule>, moduleId: nat, submoduleId: nat)
    ensures SubmodulesFrom(moduleName, submodules, moduleId, submoduleId).Ok? <==>
      forall j :: 0 <= j < |submodules| ==> ScopeFits(moduleId, submoduleId + j, |submodules[j].errors|)
    decreases |submodules|
  {
    if submodules != [] {
      var rest := submodules[1..];
      assert SubmodulesFrom(moduleName, submodules, moduleId, submoduleId)
        == Chain(ProcessModule(moduleName, Some(submodules[0].name), submodules[0].errors, moduleId, submoduleId),
                 SubmodulesFrom(moduleName, rest, moduleId, submoduleId + 1));
      SubmodulesOkIff(moduleName, rest, moduleId, submoduleId + 1);
      assert forall j :: 0 <= j < |rest| ==> rest[j] == submodules[j + 1];
    }
  }

  lemma ModuleOkIff(m: Module, moduleId: nat)
    ensures ModuleRecords(m, moduleId).Ok? <==> ModuleFits(m, moduleId)
  {
    SubmodulesOkIff(m.name, m.submodules, moduleId, START_SUBMODULE_ID);
  }

  lemma {:induction false} ModulesOkIff(modules: seq<Module>, moduleId: nat)
    ensures ModulesFrom(modules, moduleId).Ok? <==>
      forall i :: 0 <= i < |modules| ==> ModuleFits(modules[i], moduleId + i)
    decreases |modules|
  {
    if modules != [] {
      var rest := modules[1..];
      assert ModulesFrom(modules, moduleId) == Chain(ModuleRecords(modules[0], moduleId), ModulesFrom(rest, moduleId + 1));
      ModuleOkIff(modules[0], moduleId);
      ModulesOkIff(rest, moduleId + 1);
      assert forall i :: 0 <= i < |rest| ==> rest[i] == modules[i + 1];
    }
  }

  /**
    Generation succeeds exactly when every scope fits: for the i-th module (id i + 1) its direct
    errors and each submodule j (id j + 1) are empty or within the 31/31/63 bounds. Empty modules and
    submodules never fail, whatever id they consume.
  */
  lemma GenerateOkIff(modules: seq<Module>)
    ensures Generate(modules).Ok? <==>
      forall i :: 0 <= i < |modules| ==> ModuleFits(modules[i], START_MODULE_ID + i)
  {
    ModulesOkIff(modules, START_MODULE_ID);
  }

  /** The index of the first submodule (ids from `submoduleId`) whose scope does not fit, or |submodules|. */
  function FirstUnfit(moduleId: nat, submodules: seq<Submodule>, submoduleId: nat): (j: nat)
    ensures j <= |submodules|
    ensures forall j' :: 0 <= j' < j ==> ScopeFits(moduleId, submoduleId + j', |submodules[j'].errors|)
    ensures j < |submodules| ==> !ScopeFits(moduleId, submoduleId + j, |submodules[j].errors|)
    decreases |submodules|
  {
    if submodules == [] || !ScopeFits(moduleId, submoduleId, |submodules[0].errors|) then 0
    else 1 + FirstUnfit(moduleId, submodules[1..], submoduleId + 1)
  }

  /** A failing submodule loop reports the overflow of its first submodule that does not fit. */
  lemma {:induction false} SubmodulesFailure(moduleName: string, submodules: seq<Submodule>, moduleId: nat, submoduleId: nat)
    requires SubmodulesFrom(moduleName, submodules, moduleId, submoduleId).Err?
    ensures FirstUnfit(moduleId, submodules, submoduleId) < |submodules|
    ensures SubmodulesFrom(moduleName, submodules, moduleId, submoduleId)
      == Err(ScopeFailure(moduleId, submoduleId + FirstUnfit(moduleId, submodules, submoduleId), START_ERROR_ID))
    decreases |submodules|
  {
    var head := ProcessModule(moduleName, Some(submodules[0].name), submodules[0].errors, moduleId, submoduleId);
    var rest := submodules[1..];
    assert SubmodulesFrom(moduleName, submodules, moduleId, submoduleId)
      == Chain(head, SubmodulesFrom(moduleName, rest, moduleId, submoduleId + 1));
    if head.Ok? {
      SubmodulesFailure(moduleName, rest, moduleId, submoduleId + 1);
      assert FirstUnfit(moduleId, submodules, submoduleId) == 1 + FirstUnfit(moduleId, rest, submoduleId + 1);
    } else {
      assert FirstUnfit(moduleId, submodules, submoduleId) == 0;
    }
  }

  /**
    A module that fails reports the overflow of its first failing scope: its direct errors
    (submodule id 0) if those do not fit, otherwise the first submodule j (id j + 1) that does not.
  */
  lemma ModuleFailure(m: Module, moduleId: nat)
    requires ModuleRecords(m, moduleId).Err?
    ensures !ScopeFits(moduleId, 0, |m.errors|) ==>
      ModuleRecords(m, moduleId).error == ScopeFailure(moduleId, 0, START_ERROR_ID)
    ensures ScopeFits(moduleId, 0, |m.errors|) ==>
      && FirstUnfit(moduleId, m.submodules, START_SUBMODULE_ID) < |m.submodules|
      && ModuleRecords(m, moduleId).error
         == ScopeFailure(moduleId, START_SUBMODULE_ID + FirstUnfit(moduleId, m.submodules, START_SUBMODULE_ID), START_ERROR_ID)
  {
    var direct := ProcessModule(m.name, None, m.errors, moduleId, 0);
    assert ModuleRecords(m, moduleId) == Chain(direct, SubmodulesFrom(m.name, m.submodules, moduleId, START_SUBMODULE_ID));
    if direct.Ok? {
      SubmodulesFailure(m.name, m.submodules, moduleId, START_SUBMODULE_ID);
    }
  }

  /** Modules 1..k that succeed under ids from moduleId + 1, after a module 0 that succeeds, form a succeeding prefix. */
  lemma PrefixOkShift(modules: seq<Module>, moduleId: nat, k: nat)
    requires k < |modules|
    requires ModuleRecords(modules[0], moduleId).Ok?
    requires forall j :: 0 <= j < k ==> ModuleRecords(modules[1..][j], moduleId + 1 + j).Ok?
    ensures forall i' :: 0 <= i' < k + 1 ==> ModuleRecords(modules[i'], moduleId + i').Ok?
  {
    forall i' | 0 < i' < k + 1 ensures ModuleRecords(modules[i'], moduleId + i').Ok? {
      assert modules[i'] == modules[1..][i' - 1];
      assert moduleId + i' == moduleId + 1 + (i' - 1);
    }
  }

  /** The index of the first module of `modules` (ids from `moduleId`) whose records fail, as a witness. */
  lemma {:induction false} ModulesFailure(modules: seq<Module>, moduleId: nat) returns (i: nat)
    requires ModulesFrom(modules, moduleId).Err?
    ensures i < |modules|
    ensures forall i' :: 0 <= i' < i ==> ModuleRecords(modules[i'], moduleId + i').Ok?
    ensures ModuleRecords(modules[i], moduleId + i) == ModulesFrom(modules, moduleId)
    decreases |modules|
  {
    if ModuleRecords(modules[0], moduleId).Ok? {
      var rest := modules[1..];
      assert ModulesFrom(modules, moduleId) == ModulesFrom(rest, moduleId + 1);
      var k := ModulesFailure(rest, moduleId + 1);
      i := k + 1;
      PrefixOkShift(modules, moduleId, k);
      assert modules[i] == rest[k];
      assert moduleId + i == moduleId + 1 + k;
    } else {
      i := 0;
    }
  }

  /**
    A failed generation returns the failure of the first module (in input order, the i-th with id
    i + 1) that does not fit; nothing of the records before it is returned.
  */
  lemma GenerateFailure(modules: seq<Module>)
    requires Generate(modules).Err?
    ensures exists i :: (0 <= i < |modules|
      && (forall i' :: 0 <= i' < i ==> ModuleFits(modules[i'], START_MODULE_ID + i'))
      && !ModuleFits(modules[i], START_MODULE_ID + i)
      && ModuleRecords(modules[i], START_MODULE_ID + i) == Generate(modules))
  {
    var i := ModulesFailure(modules, START_MODULE_ID);
    forall i' | 0 <= i' < i ensures ModuleFits(modules[i'], START_MODULE_ID + i') {
      ModuleOkIff(modules[i'], START_MODULE_ID + i');
    }
    ModuleOkIff(modules[i], START_MODULE_ID + i);
  }

  // ---------------------------------------------------------------------------------------------
  // Order and counters of a successful generation

  lemma {:induction false} SubmodulesAsBlocks(moduleName: string, submodules: seq<Submodule>, moduleId: nat, submoduleId: nat)
    requires SubmodulesFrom(moduleName, submodules, moduleId, submoduleId).Ok?
    ensures SubmodulesFrom(moduleName, submodules, moduleId, submoduleId).value
      == Flatten(SubmoduleBlocks(moduleName, submodules, moduleId, submoduleId))
    decreases |submodules|
  {
    if submodules != [] {
      SubmodulesAsBlocks(moduleName, submodules[1..], moduleId, submoduleId + 1);
    }
  }

  /**
    The records of one module: its direct errors (submodule id 0) first, then the block of each
    submodule in declared order, the j-th with submodule id j + 1, empty submodules included.
  */
  lemma ModuleAsBlocks(m: Module, moduleId: nat)
    requires ModuleRecords(m, moduleId).Ok?
    ensures ProcessModule(m.name, None, m.errors, moduleId, 0).Ok?
    ensures ModuleRecords(m, moduleId).value == ProcessModule(m.name, None, m.errors, moduleId, 0).value
      + Flatten(SubmoduleBlocks(m.name, m.submodules, moduleId, START_SUBMODULE_ID))
  {
    SubmodulesAsBlocks(m.name, m.submodules, moduleId, START_SUBMODULE_ID);
  }

  lemma {:induction false} ModulesAsBlocks(modules: seq<Module>, moduleId: nat)
    requires ModulesFrom(modules, moduleId).Ok?
    ensures ModulesFrom(modules, moduleId).value == Flatten(ModuleBlocks(modules, moduleId))
    decreases |modules|
  {
    if modules != [] {
      ModulesAsBlocks(modules[1..], moduleId + 1);
    }
  }

  /**
    The records of a successful generation are the blocks of the modules in input order, the i-th
    module with module id i + 1 whether or not it has errors.
  */
  lemma GenerateAsBlocks(modules: seq<Module>)
    requires Generate(modules).Ok?
    ensures Generate(modules).value == Flatten(ModuleBlocks(modules, START_MODULE_ID))
  {
    ModulesAsBlocks(modules, START_MODULE_ID);
  }

  // ---------------------------------------------------------------------------------------------
  // Codes are distinct, increasing in output order, and within the 16-bit code space

  lemma ConcatOrdered(a: seq<Record>, b: seq<Record>, lo: int, mid: int, hi: int)
    requires lo <= mid <= hi
    requires Increasing(a) && AllIn(a, lo, mid)
    requires Increasing(b) && AllIn(b, mid, hi)
    ensures Increasing(a + b) && AllIn(a + b, lo, hi)
  {
    var ab := a + b;
    forall i, j | 0 <= i < j < |ab| ensures ab[i].code < ab[j].code {
      if j < |a| {
        assert ab[i] == a[i] && ab[j] == a[j];
      } else if i < |a| {
        assert ab[i] == a[i] && ab[j] == b[j - |a|];
      } else {
        assert ab[i] == b[i - |a|] && ab[j] == b[j - |a|];
      }
    }
    forall k | 0 <= k < |ab| ensures lo <= ab[k].code < hi {
      if k < |a| { assert ab[k] == a[k]; } else { assert ab[k] == b[k - |a|]; }
    }
  }

  lemma ConcatBelow(a: seq<Record>, b: seq<Record>, hi: int)
    requires AllIn(a, 0, hi) && AllIn(b, 0, hi)
    ensures AllIn(a + b, 0, hi)
  {
    var ab := a + b;
    forall k | 0 <= k < |ab| ensures 0 <= ab[k].code < hi {
      if k < |a| { assert ab[k] == a[k]; } else { assert ab[k] == b[k - |a|]; }
    }
  }

  /** The codes of one scope count up by one inside the 64-code block of its (module, submodule) pair. */
  lemma ScopeOrdered(moduleName: string, submoduleName: Option<string>, errors: seq<ErrorEntry>, moduleId: nat, submoduleId: nat)
    requires ProcessModule(moduleName, submoduleName, errors, moduleId, submoduleId).Ok?
    ensures var rs := ProcessModule(moduleName, submoduleName, errors, moduleId, submoduleId).value;
      && Increasing(rs)
      && AllIn(rs, moduleId * 2048 + submoduleId * 64 + 1, moduleId * 2048 + submoduleId * 64 + 64)
      && AllIn(rs, 0, 65536)
  {
    var rs := ProcessModule(moduleName, submoduleName, errors, moduleId, submoduleId).value;
    if errors != [] {
      forall k | 0 <= k < |rs| ensures rs[k].code < 65536 {
        CodeBelow(moduleId, submoduleId, k + 1);
      }
    }
  }

  lemma CodeBelow(m: nat, s: nat, e: nat)
    requires m <= 31 && s <= 31 && e <= 63
    ensures m * 2048 + s * 64 + e < 65536
  {
  }

  lemma {:induction false} SubmodulesOrdered(moduleName: string, submodules: seq<Submodule>, moduleId: nat, submoduleId: nat)
    requires SubmodulesFrom(moduleName, submodules, moduleId, submoduleId).Ok?
    ensures var rs := SubmodulesFrom(moduleName, submodules, moduleId, submoduleId).value;
      && Increasing(rs)
      && AllIn(rs, moduleId * 2048 + submoduleId * 64, moduleId * 2048 + 2048)
      && AllIn(rs, 0, 65536)
    decreases |submodules|
  {
    if submodules != [] {
      var head := ProcessModule(moduleName, Some(submodules[0].name), submodules[0].errors, moduleId, submoduleId);
      var tail := SubmodulesFrom(moduleName, submodules[1..], moduleId, submoduleId + 1);
      assert SubmodulesFrom(moduleName, submodules, moduleId, submoduleId) == Chain(head, tail);
      ScopeOrdered(moduleName, Some(submodules[0].name), submodules[0].errors, moduleId, submoduleId);
      SubmodulesOrdered(moduleName, submodules[1..], moduleId, submoduleId + 1);
      var lo := moduleId * 2048 + submoduleId * 64;
      if head.value == [] {
        assert head.value + tail.value == tail.value;
        assert AllIn(tail.value, lo, moduleId * 2048 + 2048);
      } else {
        assert submoduleId <= 31;
        assert AllIn(head.value, lo, lo + 64);
        if tail.value != [] {
          ConcatOrdered(head.value, tail.value, lo, lo + 64, moduleId * 2048 + 2048);
        } else {
          assert head.value + tail.value == head.value;
        }
      }
      ConcatBelow(head.value, tail.value, 65536);
    }
  }

  lemma ModuleOrdered(m: Module, moduleId: nat)
    requires ModuleRecords(m, moduleId).Ok?
    ensures var rs := ModuleRecords(m, moduleId).value;
      && Increasing(rs)
      && AllIn(rs, moduleId * 2048, moduleId * 2048 + 2048)
      && AllIn(rs, 0, 65536)
  {
    var direct := ProcessModule(m.name, None, m.errors, moduleId, 0);
    var subs := SubmodulesFrom(m.name, m.submodules, moduleId, START_SUBMODULE_ID);
    ScopeOrdered(m.name, None, m.errors, moduleId, 0);
    SubmodulesOrdered(m.name, m.submodules, moduleId, START_SUBMODULE_ID);
    ConcatOrdered(direct.value, subs.value, moduleId * 2048, moduleId * 2048 + 64, moduleId * 2048 + 2048);
    ConcatBelow(direct.value, subs.value, 65536);
  }

  lemma {:induction false} ModulesOrdered(modules: seq<Module>, moduleId: nat)
    requires ModulesFrom(modules, moduleId).Ok?
    ensures var rs := ModulesFrom(modules, moduleId).value;
      Increasing(rs) && AllIn(rs, moduleId * 2048, 65536)
    decreases |modules|
  {
    if modules != [] {
      var head := ModuleRecords(modules[0], moduleId);
      var tail := ModulesFrom(modules[1..], moduleId + 1);
      assert ModulesFrom(modules, moduleId) == Chain(head, tail);
      ModuleOrdered(modules[0], moduleId);
      ModulesOrdered(modules[1..], moduleId + 1);
      ModuleBlockFirst(head.value, tail.value, moduleId);
    }
  }

  /** A module's block, followed by the blocks of the modules with larger ids. */
  lemma ModuleBlockFirst(head: seq<Record>, tail: seq<Record>, moduleId: nat)
    requires Increasing(head) && AllIn(head, moduleId * 2048, moduleId * 2048 + 2048) && AllIn(head, 0, 65536)
    requires Increasing(tail) && AllIn(tail, (moduleId + 1) * 2048, 65536)
    ensures Increasing(head + tail) && AllIn(head + tail, moduleId * 2048, 65536)
  {
    if head == [] {
      assert head + tail == tail;
    } else if tail == [] {
      assert head + tail == head;
    } else {
      assert head[0].code < 65536;
      ConcatOrdered(head, tail, moduleId * 2048, moduleId * 2048 + 2048, 65536);
    }
  }

  /**
    The codes of a successful generation strictly increase in output order, so they are pairwise
    distinct, and they lie in [2048, 65536): module ids start at 1 and every code fits 16 bits.
  */
  lemma GenerateOrdered(modules: seq<Module>)
    requires Generate(modules).Ok?
    ensures Increasing(Generate(modules).value)
    ensures AllIn(Generate(modules).value, 2048, 65536)
  {
    ModulesOrdered(modules, START_MODULE_ID);
  }

  // ---------------------------------------------------------------------------------------------
  // One record per error entry

  lemma {:induction false} SubmodulesCount(moduleName: string, submodules: seq<Submodule>, moduleId: nat, submoduleId: nat)
    requires SubmodulesFrom(moduleName, submodules, moduleId, submoduleId).Ok?
    ensures |SubmodulesFrom(moduleName, submodules, moduleId, submoduleId).value| == SubmoduleErrorCount(submodules)
    decreases |submodules|
  {
    if submodules != [] {
      assert SubmodulesFrom(moduleName, submodules, moduleId, submoduleId)
        == Chain(ProcessModule(moduleName, Some(submodules[0].name), submodules[0].errors, moduleId, submoduleId),
                 SubmodulesFrom(moduleName, submodules[1..], moduleId, submoduleId + 1));
      SubmodulesCount(moduleName, submodules[1..], moduleId, submoduleId + 1);
    }
  }

  lemma {:induction false} ModulesCount(modules: seq<Module>, moduleId: nat)
    requires ModulesFrom(modules, moduleId).Ok?
    ensures |ModulesFrom(modules, moduleId).value| == TotalErrors(modules)
    decreases |modules|
  {
    if modules != [] {
      var m := modules[0];
      assert ModulesFrom(modules, moduleId) == Chain(ModuleRecords(m, moduleId), ModulesFrom(modules[1..], moduleId + 1));
      SubmodulesCount(m.name, m.submodules, moduleId, START_SUBMODULE_ID);
      ModulesCount(modules[1..], moduleId + 1);
    }
  }

  /** A successful generation has one record per error entry; it is empty exactly when there are none. */
  lemma GenerateCount(modules: seq<Module>)
    requires Generate(modules).Ok?
    ensures |Generate(modules).value| == TotalErrors(modules)
    ensures Generate(modules).value == [] <==> TotalErrors(modules) == 0
  {
    ModulesCount(modules, START_MODULE_ID);
  }

  // ---------------------------------------------------------------------------------------------
  // Codes depend on positions only: names and descriptions never affect them

  lemma ChainCodes(a1: Records, b1: Records, a2: Records, b2: Records)
    requires CodesOf(a1) == CodesOf(a2) && CodesOf(b1) == CodesOf(b2)
    ensures CodesOf(Chain(a1, b1)) == CodesOf(Chain(a2, b2))
  {
    if a1.Ok? && b1.Ok? {
      var r1, r2 := a1.value + b1.value, a2.value + b2.value;
      assert |a1.value| == |a2.value| && |b1.value| == |b2.value|;
      forall k | 0 <= k < |r1| ensures r1[k].code == r2[k].code {
        if k < |a1.value| {
          assert CodesOf(a1).value[k] == CodesOf(a2).value[k];
        } else {
          assert CodesOf(b1).value[k - |a1.value|] == CodesOf(b2).value[k - |a1.value|];
        }
      }
      assert CodesOf(Ok(r1)).value == CodesOf(Ok(r2)).value;
    }
  }

  /** The codes of a scope depend on its ids and its number of entries, not on any name or description. */
  lemma ScopeCodes(n1: string, s1: Option<string>, e1: seq<ErrorEntry>, n2: string, s2: Option<string>, e2: seq<ErrorEntry>,
                   moduleId: nat, submoduleId: nat)
    requires |e1| == |e2|
    ensures CodesOf(ProcessModule(n1, s1, e1, moduleId, submoduleId)) == CodesOf(ProcessModule(n2, s2, e2, moduleId, submoduleId))
  {
    var r1, r2 := ProcessModule(n1, s1, e1, moduleId, submoduleId), ProcessModule(n2, s2, e2, moduleId, submoduleId);
    if r1.Ok? {
      assert forall k :: 0 <= k < |r1.value| ==> r1.value[k].code == r2.value[k].code;
      assert CodesOf(r1).value == CodesOf(r2).value;
    }
  }

  lemma {:induction false} SubmodulesCodes(n1: string, subs1: seq<Submodule>, n2: string, subs2: seq<Submodule>,
                                           moduleId: nat, submoduleId: nat)
    requires SameSubmoduleLayout(subs1, subs2)
    ensures CodesOf(SubmodulesFrom(n1, subs1, moduleId, submoduleId)) == CodesOf(SubmodulesFrom(n2, subs2, moduleId, submoduleId))
    decreases |subs1|
  {
    if subs1 != [] {
      ScopeCodes(n1, Some(subs1[0].name), subs1[0].errors, n2, Some(subs2[0].name), subs2[0].errors, moduleId, submoduleId);
      assert SameSubmoduleLayout(subs1[1..], subs2[1..]) by {
        forall j | 0 <= j < |subs1| - 1 ensures |subs1[1..][j].errors| == |subs2[1..][j].errors| {
          assert subs1[1..][j] == subs1[j + 1] && subs2[1..][j] == subs2[j + 1];
        }
      }
      SubmodulesCodes(n1, subs1[1..], n2, subs2[1..], moduleId, submoduleId + 1);
      ChainCodes(ProcessModule(n1, Some(subs1[0].name), subs1[0].errors, moduleId, submoduleId),
                 SubmodulesFrom(n1, subs1[1..], moduleId, submoduleId + 1),
                 ProcessModule(n2, Some(subs2[0].name), subs2[0].errors, moduleId, submoduleId),
                 SubmodulesFrom(n2, subs2[1..], moduleId, submoduleId + 1));
    }
  }

  lemma {:induction false} ModulesCodes(a: seq<Module>, b: seq<Module>, moduleId: nat)
    requires SameLayout(a, b)
    ensures CodesOf(ModulesFrom(a, moduleId)) == CodesOf(ModulesFrom(b, moduleId))
    decreases |a|
  {
    if a != [] {
      var m1, m2 := a[0], b[0];
      assert SameModuleLayout(m1, m2);
      ScopeCodes(m1.name, None, m1.errors, m2.name, None, m2.errors, moduleId, 0);
      SubmodulesCodes(m1.name, m1.submodules, m2.name, m2.submodules, moduleId, START_SUBMODULE_ID);
      ChainCodes(ProcessModule(m1.name, None, m1.errors, moduleId, 0), SubmodulesFrom(m1.name, m1.submodules, moduleId, START_SUBMODULE_ID),
                 ProcessModule(m2.name, None, m2.errors, moduleId, 0), SubmodulesFrom(m2.name, m2.submodules, moduleId, START_SUBMODULE_ID));
      assert SameLayout(a[1..], b[1..]) by {
        forall i | 0 <= i < |a| - 1 ensures SameModuleLayout(a[1..][i], b[1..][i]) {
          assert a[1..][i] == a[i + 1] && b[1..][i] == b[i + 1];
        }
      }
      ModulesCodes(a[1..], b[1..], moduleId + 1);
      ChainCodes(ModuleRecords(m1, moduleId), ModulesFrom(a[1..], moduleId + 1),
                 ModuleRecords(m2, moduleId), ModulesFrom(b[1..], moduleId + 1));
    }
  }

  /**
    Two hierarchies with the same shape (number of modules, of submodules in each, of errors in each
    scope) get the same codes, or the same failure: names and descriptions never affect the codes.
  */
  lemma GenerateCodesByLayout(a: seq<Module>, b: seq<Module>)
    requires SameLayout(a, b)
    ensures CodesOf(Generate(a)) == CodesOf(Generate(b))
  {
    ModulesCodes(a, b, START_MODULE_ID);
  }

  // ---------------------------------------------------------------------------------------------
  // An empty submodule still uses up its id

  /**
    A module's submodule list whose first submodule has no errors: the second submodule's single
    error gets submodule id 2, not 1.
  */
  lemma EmptySubmoduleConsumesId(moduleName: string, empty: Submodule, next: Submodule, moduleId: nat)
    requires empty.errors == [] && |next.errors| == 1 && moduleId <= 31
    ensures SubmodulesFrom(moduleName, [empty, next], moduleId, START_SUBMODULE_ID)
         == Ok([Record(moduleName, Some(next.name), next.errors[0].name, moduleId * 2048 + 2 * 64 + 1,
                       next.errors[0].description)])
  {
    var block := ProcessModule(moduleName, Some(next.name), next.errors, moduleId, 2);
    assert ScopeFits(moduleId, 2, 1);
    assert |block.value| == 1;
    assert block.value == [Record(moduleName, Some(next.name), next.errors[0].name, moduleId * 2048 + 2 * 64 + 1,
                                  next.errors[0].description)];
    assert ProcessModule(moduleName, Some(empty.name), [], moduleId, 1) == Ok([]);
    assert [empty, next][1..] == [next] && [next][1..] == [];
    assert SubmodulesFrom(moduleName, [next], moduleId, 2) == Chain(block, Ok([]));
    assert block.value + [] == block.value && [] + block.value == block.value;
    assert SubmodulesFrom(moduleName, [empty, next], moduleId, 1)
        == Chain(Ok([]), SubmodulesFrom(moduleName, [next], moduleId, 2));
  }

  /** The literals of ScopeFits and ScopeFailure are the configured masks and field widths. */
  lemma ScopeUsesMasks(moduleId: nat, submoduleId: nat, n: nat, errorId: nat)
    ensures ScopeFits(moduleId, submoduleId, n)
      <==> n == 0 || (moduleId <= MODULE_MASK && submoduleId <= SUBMODULE_MASK && n <= ERROR_MASK)
    ensures ScopeFailure(moduleId, submoduleId, errorId)
      == if moduleId > MODULE_MASK then EncodingOverflow(ModuleId, moduleId, Bits(ModuleId))
         else if submoduleId > SUBMODULE_MASK then EncodingOverflow(SubmoduleId, submoduleId, Bits(SubmoduleId))
         else EncodingOverflow(ErrorId, if errorId > ERROR_MASK + 1 then errorId else ERROR_MASK + 1, Bits(ErrorId))
  {
    MaskValues();
  }
}
