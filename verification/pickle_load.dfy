/** The pickle-load inspection: a call whose callee has a name and whose qualified name is
    one of the eight `load` entry points of `pickle` and `cPickle` gets one finding. */
module PickleLoad {
  import opened Wrappers
  import opened Psi

  /** The qualified names the inspection reports. */
  const PickleLoadNames: seq<string> := ["pickle.load", "pickle.loads", "cPickle.load", "cPickle.loads",
                                         "pickle._load", "pickle._loads", "cPickle._load", "cPickle._loads"]

  /** `visitPyCallExpression`: the findings registered for one call. */
  function Inspect(call: Call): (findings: seq<Finding>)
    ensures |findings| <= 1
    ensures forall k :: 0 <= k < |findings| ==> findings[k] == Plain(PickleLoad)
    ensures |findings| == 1 <==>
      call.calleeName.Some? && call.qualifiedName.Some? && call.qualifiedName.value in PickleLoadNames
  {
    if call.calleeName.None? then []
    else if call.qualifiedName.None? then []
    else if call.qualifiedName.value !in PickleLoadNames then []
    else [Plain(PickleLoad)]
  }

  /** The pickling modules and their loading functions. */
  const Modules: seq<string> := ["pickle", "cPickle"]
  const Loaders: seq<string> := ["load", "loads", "_load", "_loads"]

  /** The position in `PickleLoadNames` of module `i` with loader `j`. */
  function NameIndex(i: nat, j: nat): nat {
    (if j >= 2 then 4 else 0) + 2 * i + j % 2
  }

  /** Entry by entry, `PickleLoadNames` lists module `i` joined to loader `j`. */
  lemma NameEntries(i: nat, j: nat)
    requires i < |Modules| && j < |Loaders|
    ensures NameIndex(i, j) < |PickleLoadNames| && PickleLoadNames[NameIndex(i, j)] == Modules[i] + "." + Loaders[j]
  {
  }

  /** Every listed name is some module joined to some loader. */
  lemma ListedNameIsProduct(k: nat)
    requires k < |PickleLoadNames|
    ensures exists i, j :: 0 <= i < |Modules| && 0 <= j < |Loaders| && PickleLoadNames[k] == Modules[i] + "." + Loaders[j]
  {
    var i := (k % 4) / 2;
    var j := (if k >= 4 then 2 else 0) + k % 2;
    NameEntries(i, j);
    assert NameIndex(i, j) == k;
  }

  /** The reported names are exactly the module-by-loader product of `Modules` and
      `Loaders`, joined by a dot. */
  lemma NamesAreModuleTimesLoader(name: string)
    ensures name in PickleLoadNames <==>
      exists i, j :: 0 <= i < |Modules| && 0 <= j < |Loaders| && name == Modules[i] + "." + Loaders[j]
  {
    if name in PickleLoadNames {
      var k :| 0 <= k < |PickleLoadNames| && PickleLoadNames[k] == name;
      ListedNameIsProduct(k);
    }
    if exists i, j :: 0 <= i < |Modules| && 0 <= j < |Loaders| && name == Modules[i] + "." + Loaders[j] {
      var i, j :| 0 <= i < |Modules| && 0 <= j < |Loaders| && name == Modules[i] + "." + Loaders[j];
      NameEntries(i, j);
    }
  }

  /** Dumping is not loading: `pickle.dumps` is not reported, and neither is a call whose
      callee has no name. */
  lemma NotReported(call: Call)
    ensures call.qualifiedName == Some("pickle.dumps") ==> Inspect(call) == []
    ensures call.calleeName.None? ==> Inspect(call) == []
  {
    assert "pickle.dumps" !in PickleLoadNames;
  }
}
