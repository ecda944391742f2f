/** `TestVals`: a dictionary that refuses keys other than `target`,
    `tolerance`, `col` and `testVal` on assignment. Its constructor fills the
    dictionary through `dict.update(locals())`, which bypasses that check, so a
    fresh object also carries the key `self`. */
module TestValsDict {
  import opened Wrappers

  /** The values stored in a TestVals object: `None`, a number, or (under the
      key `self`) the object itself. */
  datatype PyValue = PyNone | PyNumber(x: real) | PySelf

  datatype KeyError = KeyError(key: string)

  type Dict = map<string, PyValue>

  const ValidKeys: set<string> := {"target", "tolerance", "col", "testVal"}

  /** `TestVals(target, tolerance, col, testVal)`: the locals of `__init__`
      at the moment of `self.update(locals())` are its four parameters and
      `self`. */
  function New(target: PyValue, tolerance: PyValue, col: PyValue, testVal: PyValue): (d: Dict)
    ensures d.Keys == ValidKeys + {"self"}
    ensures d["target"] == target && d["tolerance"] == tolerance
    ensures d["col"] == col && d["testVal"] == testVal
  {
    map["self" := PySelf, "target" := target, "tolerance" := tolerance,
        "col" := col, "testVal" := testVal]
  }

  /** `d[key] = value` through the overridden `__setitem__`. */
  function SetItem(d: Dict, key: string, value: PyValue): (r: Result<Dict, KeyError>)
    ensures r.Success? <==> key in ValidKeys
    ensures r.Success? ==> r.value.Keys == d.Keys + {key} && r.value[key] == value
    ensures r.Success? ==> forall k :: k in d && k != key ==> r.value[k] == d[k]
    ensures r.Failure? ==> r.error == KeyError(key)
  {
    if key in ValidKeys then Success(d[key := value]) else Failure(KeyError(key))
  }

  /** The keys a run of assignments writes to. */
  function KeysOf(updates: seq<(string, PyValue)>): set<string> {
    if updates == [] then {} else {updates[0].0} + KeysOf(updates[1..])
  }

  /** A run of assignments `d[k1] = v1; d[k2] = v2; ...`; the first `KeyError`
      ends it. */
  function AssignAll(d: Dict, updates: seq<(string, PyValue)>): (r: Result<Dict, KeyError>)
    ensures r.Failure? <==> !(KeysOf(updates) <= ValidKeys)
    ensures r.Failure? ==> r.error.key in KeysOf(updates) && r.error.key !in ValidKeys
    ensures r.Success? ==> r.value.Keys == d.Keys + KeysOf(updates)
    ensures r.Success? ==> forall key :: key in d && key !in KeysOf(updates) ==> r.value[key] == d[key]
    decreases |updates|
  {
    if updates == [] then Success(d)
    else
      match SetItem(d, updates[0].0, updates[0].1)
      case Failure(e) => Failure(e)
      case Success(d') => AssignAll(d', updates[1..])
  }

  /** Assignments to a fresh object never remove `self` and never add a key:
      the key set stays the four valid keys plus `self`, and `self` keeps
      referring to the object. */
  lemma FreshKeysAreStable(target: PyValue, tolerance: PyValue, col: PyValue, testVal: PyValue,
                           updates: seq<(string, PyValue)>)
    requires AssignAll(New(target, tolerance, col, testVal), updates).Success?
    ensures AssignAll(New(target, tolerance, col, testVal), updates).value.Keys == ValidKeys + {"self"}
    ensures AssignAll(New(target, tolerance, col, testVal), updates).value["self"] == PySelf
  {
  }

  /** `self` is present in every fresh object although it can never be
      assigned: the key restriction is enforced on assignment only. */
  lemma SelfPresentButNotAssignable(target: PyValue, tolerance: PyValue, col: PyValue, testVal: PyValue, v: PyValue)
    ensures "self" in New(target, tolerance, col, testVal)
    ensures !(New(target, tolerance, col, testVal).Keys <= ValidKeys)
    ensures SetItem(New(target, tolerance, col, testVal), "self", v).Failure?
  {
    assert "self" !in ValidKeys;
  }
}
