/**
 * The Python values that cloud-init configuration is made of, after YAML
 * loading: `None`, booleans, integers, strings, lists and dicts. A dict is an
 * association list, because Python dicts keep insertion order and the
 * modules iterate over them.
 */
module PyValues {
  import opened Wrappers
  import opened Text

  datatype Value =
    | VNone
    | VBool(b: bool)
    | VInt(i: int)
    | VStr(s: string)
    | VList(items: seq<Value>)
    | VDict(entries: seq<(string, Value)>)

  /** A Python `dict` with string keys, in insertion order. */
  type Dict = seq<(string, Value)>

  /** The exception classes the modelled handlers raise. */
  datatype PyError = RuntimeError(msg: string) | ValueError(msg: string) | TypeError(msg: string)

  /** `bool(v)` */
  predicate Truthy(v: Value)
  {
    match v
    case VNone => false
    case VBool(b) => b
    case VInt(i) => i != 0
    case VStr(s) => s != ""
    case VList(items) => items != []
    case VDict(entries) => entries != []
  }

  /** `type(v).__name__` */
  function TypeName(v: Value): string
  {
    match v
    case VNone => "NoneType"
    case VBool(_) => "bool"
    case VInt(_) => "int"
    case VStr(_) => "str"
    case VList(_) => "list"
    case VDict(_) => "dict"
  }

  // ---------------------------------------------------------------------------
  // Dict operations

  /** No key occurs twice, as in every Python dict. */
  predicate UniqueKeys<V>(d: seq<(string, V)>)
  {
    forall i, j :: 0 <= i < j < |d| ==> d[i].0 != d[j].0
  }

  /** `d.keys()` */
  function Keys<V>(d: seq<(string, V)>): set<string>
  {
    set i | 0 <= i < |d| :: d[i].0
  }

  lemma KeysCons<V>(x: (string, V), s: seq<(string, V)>)
    ensures Keys([x] + s) == {x.0} + Keys(s)
  {
    var t := [x] + s;
    forall k | k in Keys(s) ensures k in Keys(t) {
      var i :| 0 <= i < |s| && s[i].0 == k;
      assert t[i + 1].0 == k;
    }
    forall k | k in Keys(t) ensures k in {x.0} + Keys(s) {
      var i :| 0 <= i < |t| && t[i].0 == k;
      if i > 0 { assert s[i - 1].0 == k; }
    }
    assert t[0].0 == x.0;
  }

  lemma UniqueCons<V>(x: (string, V), s: seq<(string, V)>)
    ensures UniqueKeys([x] + s) <==> UniqueKeys(s) && x.0 !in Keys(s)
  {
    var t := [x] + s;
    if UniqueKeys(t) {
      forall i, j | 0 <= i < j < |s| ensures s[i].0 != s[j].0 {
        assert t[i + 1] == s[i] && t[j + 1] == s[j];
      }
      forall i | 0 <= i < |s| ensures s[i].0 != x.0 {
        assert t[i + 1] == s[i] && t[0] == x;
      }
    }
    if UniqueKeys(s) && x.0 !in Keys(s) {
      forall i, j | 0 <= i < j < |t| ensures t[i].0 != t[j].0 {
        assert t[j] == s[j - 1];
        if i > 0 { assert t[i] == s[i - 1]; }
        assert s[j - 1].0 in Keys(s);
      }
    }
  }

  /** `k in d` */
  predicate HasKey<V>(d: seq<(string, V)>, k: string)
  {
    k in Keys(d)
  }

  /** All but the last entry of a dict form a dict that lacks the last key. */
  lemma UniqueInit<V>(d: seq<(string, V)>)
    requires UniqueKeys(d) && d != []
    ensures UniqueKeys(d[..|d| - 1]) && d[|d| - 1].0 !in Keys(d[..|d| - 1])
  {
    var init := d[..|d| - 1];
    forall i, j | 0 <= i < j < |init| ensures init[i].0 != init[j].0 {
      assert init[i] == d[i] && init[j] == d[j];
    }
    forall i | 0 <= i < |init| ensures init[i].0 != d[|d| - 1].0 {
      assert init[i] == d[i];
    }
  }

  /** `d.get(k)`, with `None` for a missing key. */
  function Get<V>(d: seq<(string, V)>, k: string): (r: Option<V>)
    ensures r.Some? <==> HasKey(d, k)
    ensures r.Some? ==> (k, r.value) in d
  {
    if d == [] then None
    else if d[0].0 == k then Some(d[0].1)
    else
      KeysCons(d[0], d[1..]); assert d == [d[0]] + d[1..];
      Get(d[1..], k)
  }

  /** In a dict, the entry found for a key is the only entry with that key. */
  lemma {:induction false} GetUnique<V>(d: seq<(string, V)>, i: int)
    requires UniqueKeys(d) && 0 <= i < |d|
    ensures Get(d, d[i].0) == Some(d[i].1)
  {
    if i > 0 {
      UniqueCons(d[0], d[1..]);
      assert d == [d[0]] + d[1..];
      assert d[i] == d[1..][i - 1];
      GetUnique(d[1..], i - 1);
    }
  }

  /** `d.get(k, default)` */
  function GetOr(d: Dict, k: string, default: Value): Value
  {
    Get(d, k).GetOr(default)
  }

  /** `d.pop(k, ...)` with its effect on the dict: the entry for `k` is removed, the rest keep their order. */
  function Pop<V>(d: seq<(string, V)>, k: string): (r: seq<(string, V)>)
    ensures Keys(r) == Keys(d) - {k}
    ensures UniqueKeys(d) ==> UniqueKeys(r)
    ensures forall k' :: k' != k ==> Get(r, k') == Get(d, k')
    ensures !HasKey(d, k) ==> r == d
  {
    if d == [] then []
    else
      KeysCons(d[0], d[1..]); UniqueCons(d[0], d[1..]); assert d == [d[0]] + d[1..];
      var rest := Pop(d[1..], k);
      if d[0].0 == k then rest
      else
        KeysCons(d[0], rest); UniqueCons(d[0], rest);
        [d[0]] + rest
  }

  /** `d[k] = v`: an existing entry keeps its position, a new one goes last. */
  function Put<V>(d: seq<(string, V)>, k: string, v: V): (r: seq<(string, V)>)
    ensures Get(r, k) == Some(v)
    ensures forall k' :: k' != k ==> Get(r, k') == Get(d, k')
    ensures Keys(r) == Keys(d) + {k}
    ensures !HasKey(d, k) ==> r == d + [(k, v)]
    ensures HasKey(d, k) ==> |r| == |d|
  {
    if d == [] then [(k, v)]
    else
      KeysCons(d[0], d[1..]); assert d == [d[0]] + d[1..];
      if d[0].0 == k then
        KeysCons((k, v), d[1..]);
        [(k, v)] + d[1..]
      else
        var rest := Put(d[1..], k, v);
        KeysCons(d[0], rest);
        [d[0]] + rest
  }

  /** Assigning to a key keeps a dict's keys unique. */
  lemma {:induction false} PutUnique<V>(d: seq<(string, V)>, k: string, v: V)
    ensures UniqueKeys(d) ==> UniqueKeys(Put(d, k, v))
  {
    if d != [] {
      UniqueCons(d[0], d[1..]); assert d == [d[0]] + d[1..];
      if d[0].0 == k {
        UniqueCons((k, v), d[1..]);
      } else {
        PutUnique(d[1..], k, v);
        UniqueCons(d[0], Put(d[1..], k, v));
      }
    }
  }

  // ---------------------------------------------------------------------------
  // sorted(d.items())

  /** The entries are in Python's ascending order of their keys. */
  predicate SortedByKey<V>(s: seq<(string, V)>)
  {
    forall i, j :: 0 <= i < j < |s| ==> StrLe(s[i].0, s[j].0)
  }

  /** Inserts one entry in front of the first entry whose key is not smaller. */
  function InsertByKey<V>(x: (string, V), s: seq<(string, V)>): (r: seq<(string, V)>)
    ensures multiset(r) == multiset(s) + multiset{x}
    ensures Keys(r) == Keys(s) + {x.0}
  {
    if s == [] then [x]
    else if StrLt(s[0].0, x.0) then
      var rest := InsertByKey(x, s[1..]);
      assert s == [s[0]] + s[1..];
      KeysCons(s[0], s[1..]);
      KeysCons(s[0], rest);
      [s[0]] + rest
    else
      KeysCons(x, s);
      [x] + s
  }

  lemma {:induction false} InsertByKeySorted<V>(x: (string, V), s: seq<(string, V)>)
    requires SortedByKey(s)
    ensures SortedByKey(InsertByKey(x, s))
  {
    if s != [] {
      var r := InsertByKey(x, s);
      if StrLt(s[0].0, x.0) {
        InsertByKeySorted(x, s[1..]);
        var rest := InsertByKey(x, s[1..]);
        StrLtAsymmetric(s[0].0, x.0);
        forall j | 0 <= j < |rest| ensures StrLe(s[0].0, rest[j].0) {
          assert rest[j] in multiset(rest);
          if rest[j] != x {
            assert rest[j] in s[1..];
            var m :| 0 <= m < |s[1..]| && s[1..][m] == rest[j];
            assert s[m + 1] == rest[j];
          }
        }
      } else {
        StrLeTotal(x.0, s[0].0);
        forall j | 0 <= j < |s| ensures StrLe(x.0, s[j].0) {
          if j > 0 { StrLeTransitive(x.0, s[0].0, s[j].0); }
        }
      }
    }
  }

  lemma {:induction false} InsertByKeyUnique<V>(x: (string, V), s: seq<(string, V)>)
    ensures UniqueKeys(s) && x.0 !in Keys(s) ==> UniqueKeys(InsertByKey(x, s))
  {
    if !(UniqueKeys(s) && x.0 !in Keys(s)) {
    } else if s != [] && StrLt(s[0].0, x.0) {
      KeysCons(s[0], s[1..]); UniqueCons(s[0], s[1..]); assert s == [s[0]] + s[1..];
      InsertByKeyUnique(x, s[1..]);
      var rest := InsertByKey(x, s[1..]);
      forall j | 0 <= j < |rest| ensures rest[j].0 != s[0].0 {
        assert rest[j].0 in Keys(rest);
      }
    } else if s != [] {
      forall j | 0 <= j < |s| ensures s[j].0 != x.0 {
        assert s[j].0 in Keys(s);
      }
    }
  }

  /** `sorted(d.items())` for a dict: the same entries, in ascending key order. */
  function SortByKey<V>(d: seq<(string, V)>): (r: seq<(string, V)>)
    ensures multiset(r) == multiset(d)
    ensures Keys(r) == Keys(d)
  {
    if d == [] then []
    else
      assert d == [d[0]] + d[1..];
      KeysCons(d[0], d[1..]);
      InsertByKey(d[0], SortByKey(d[1..]))
  }

  /** The order `sorted` produces, and it keeps a dict's keys unique. */
  lemma {:induction false} SortByKeySorted<V>(d: seq<(string, V)>)
    ensures SortedByKey(SortByKey(d))
    ensures UniqueKeys(d) ==> UniqueKeys(SortByKey(d))
  {
    if d != [] {
      var rest := SortByKey(d[1..]);
      SortByKeySorted(d[1..]);
      InsertByKeySorted(d[0], rest);
      assert d == [d[0]] + d[1..];
      UniqueCons(d[0], d[1..]);
      InsertByKeyUnique(d[0], rest);
    }
  }

  /** With unique keys, sorted order is strictly ascending. */
  lemma SortedUniqueIsStrict<V>(s: seq<(string, V)>)
    requires SortedByKey(s) && UniqueKeys(s)
    ensures forall i, j :: 0 <= i < j < |s| ==> StrLt(s[i].0, s[j].0)
  {
    forall i, j | 0 <= i < j < |s| ensures StrLt(s[i].0, s[j].0) {
      StrLtTotal(s[i].0, s[j].0);
    }
  }
}
