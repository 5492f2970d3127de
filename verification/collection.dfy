/**
 * The Pandore `Collection`: a bundle of heterogeneous data indexed by
 * name, kept in a `std::map` from names to bundled objects.  Here the map
 * is a Dafny `map`, a bundled object is a value of `Bundled`, and the
 * `dynamic_cast` type checks of the typed getters are tag tests whose
 * failure (an abort in the source) is a `Result` error.
 */
module Pandore {
  import opened Wrappers

  /** The primitive types a collection can hold (everything but `int`). */
  datatype Prim = Char | Uchar | Short | Ushort | Long | Ulong | Llong | Ullong | Float | Double

  /** A Pandore object, by identity: what a `Pobject*` points to. */
  type ObjectId = nat

  /**
   * What the collection stores under a name: a primitive value, an array
   * of primitive values, a Pandore object or an array of Pandore objects.
   * Numbers are kept as reals, whatever their primitive type.
   */
  datatype Bundled =
    | BundledValue(t: Prim, value: real)
    | BundledArray(t: Prim, items: seq<real>)
    | BundledPobject(obj: ObjectId)
    | BundledPArray(objs: seq<ObjectId>)

  /** The abort of a typed getter: the named entry is missing or of another type. */
  datatype Abort = CannotConvert(name: string)

  /** The largest `Long`, the start value of the minimum in `GetNArrays`. */
  const MAXLONG: int := 0x7FFF_FFFF

  /** The order of `std::string` keys in the map: lexicographic on characters. */
  predicate Below(a: string, b: string)
  {
    if |a| == 0 then |b| > 0
    else if |b| == 0 then false
    else a[0] < b[0] || (a[0] == b[0] && Below(a[1..], b[1..]))
  }

  lemma {:induction false} BelowIrreflexive(a: string)
    ensures !Below(a, a)
  {
    if |a| > 0 {
      BelowIrreflexive(a[1..]);
    }
  }

  lemma {:induction false} BelowTransitive(a: string, b: string, c: string)
    requires Below(a, b) && Below(b, c)
    ensures Below(a, c)
  {
    if |a| > 0 && |b| > 0 && |c| > 0 && a[0] == b[0] && b[0] == c[0] {
      BelowTransitive(a[1..], b[1..], c[1..]);
    }
  }

  lemma {:induction false} BelowTotal(a: string, b: string)
    requires a != b
    ensures Below(a, b) || Below(b, a)
  {
    if |a| > 0 && |b| > 0 && a[0] == b[0] {
      assert a == [a[0]] + a[1..] && b == [b[0]] + b[1..];
      BelowTotal(a[1..], b[1..]);
    }
  }

  /** `m` is the first of the keys `s` in map order. */
  predicate IsFirst(m: string, s: set<string>)
  {
    m in s && forall k :: k in s && k != m ==> Below(m, k)
  }

  /** Every non-empty set of keys has a first one. */
  lemma {:induction false} FirstExists(s: set<string>)
    requires s != {}
    ensures exists m :: IsFirst(m, s)
  {
    var x :| x in s;
    var rest := s - {x};
    if rest == {} {
      assert s == {x};
      assert IsFirst(x, s);
    } else {
      FirstExists(rest);
      var m :| IsFirst(m, rest);
      if Below(x, m) {
        forall k | k in s && k != x
          ensures Below(x, k)
        {
          if k != m {
            BelowTransitive(x, m, k);
          }
        }
        assert IsFirst(x, s);
      } else {
        BelowTotal(x, m);
        assert IsFirst(m, s);
      }
    }
  }

  /** The decimal digits of n, as `operator<<` writes them. */
  function Decimal(n: nat): (s: string)
    ensures |s| >= 1 && forall i :: 0 <= i < |s| ==> '0' <= s[i] <= '9'
    ensures n < 10 <==> |s| == 1
  {
    var digit := ['0' + (n % 10) as char];
    if n < 10 then digit else Decimal(n / 10) + digit
  }

  /** Different numbers have different decimal forms. */
  lemma {:induction false} DecimalInjective(n: nat, m: nat)
    requires Decimal(n) == Decimal(m)
    ensures n == m
  {
    var s := Decimal(n);
    assert s[|s| - 1] == '0' + (n % 10) as char && s[|s| - 1] == '0' + (m % 10) as char;
    if n >= 10 {
      assert m >= 10;
      assert Decimal(n / 10) == s[..|s| - 1] == Decimal(m / 10);
      DecimalInjective(n / 10, m / 10);
    }
  }

  /** The name of the i-th array of the series `name`: "name.i". */
  function Member(name: string, i: nat): (s: string)
    ensures |s| > |name| && s[..|name|] == name && s[|name|] == '.'
  {
    name + "." + Decimal(i)
  }

  /** The members of a series have distinct names. */
  lemma MemberInjective(name: string, i: nat, j: nat)
    requires Member(name, i) == Member(name, j)
    ensures i == j
  {
    assert Decimal(i) == Member(name, i)[|name| + 1..];
    assert Decimal(j) == Member(name, j)[|name| + 1..];
    DecimalInjective(i, j);
  }

  /** The smallest size of the arrays, or MAXLONG when it is smaller (no arrays). */
  function MinSize(arrays: seq<seq<real>>): (m: int)
    ensures m <= MAXLONG
    ensures forall i :: 0 <= i < |arrays| ==> m <= |arrays[i]|
    ensures m == MAXLONG || exists i :: 0 <= i < |arrays| && m == |arrays[i]|
  {
    if |arrays| == 0 then MAXLONG
    else
      var rest := MinSize(arrays[..|arrays| - 1]);
      if |arrays[|arrays| - 1]| < rest then |arrays[|arrays| - 1]| else rest
  }

  /** What `GetNArrays` returns: the arrays and the smallest size. */
  datatype NArrays = NArrays(arrays: seq<seq<real>>, minSize: int)

  class Collection {
    /** `_objs`: the data, by name. */
    var objs: map<string, Bundled>

    /** A new collection is empty. */
    constructor ()
      ensures objs == map[]
    {
      objs := map[];
    }

    /** `Get`: the data stored under `name`, or nothing (NULL). */
    function Get(name: string): (r: Option<Bundled>)
      reads this
      ensures r.Some? <==> name in objs
      ensures r.Some? ==> r.value == objs[name]
    {
      if name in objs then Some(objs[name]) else None
    }

    /** `Exists`: there is data under `name`, exactly when `Get` finds some. */
    predicate Exists(name: string)
      reads this
      ensures Exists(name) <==> Get(name).Some?
    {
      name in objs
    }

    /**
     * `Set`: `name` now holds `bo`, every other name keeps its data; the
     * number of entries grows by one exactly when `name` was new.
     */
    method Set(name: string, bo: Bundled)
      modifies this
      ensures objs == old(objs)[name := bo]
      ensures Get(name) == Some(bo) && Exists(name)
      ensures forall other :: other != name ==> Get(other) == old(Get(other))
      ensures |objs| == if name in old(objs) then |old(objs)| else |old(objs)| + 1
    {
      if name in objs {
        objs := objs[name := bo];
      } else {
        objs := objs[name := bo];
      }
    }

    /** `Erase`: `name` is gone and nothing else changes; a missing name is a no-op. */
    method Erase(name: string)
      modifies this
      ensures objs == old(objs) - {name}
      ensures !Exists(name)
      ensures name !in old(objs) ==> objs == old(objs)
      ensures |objs| == if name in old(objs) then |old(objs)| - 1 else |old(objs)|
    {
      if name !in objs {
        return;
      }
      objs := objs - {name};
    }

    /**
     * `Rename`: a no-op when `oldName` is missing; otherwise `newName`
     * holds what `oldName` held and `oldName` is removed afterwards, so
     * renaming a name to itself erases it.
     */
    method Rename(oldName: string, newName: string)
      modifies this
      ensures oldName !in old(objs) ==> objs == old(objs)
      ensures oldName in old(objs) ==> objs == old(objs)[newName := old(objs)[oldName]] - {oldName}
      ensures oldName in old(objs) && oldName != newName ==> Get(newName) == old(Get(oldName)) && !Exists(oldName)
      ensures oldName in old(objs) && oldName == newName ==> !Exists(oldName)
      ensures forall other :: other != oldName && other != newName ==> Get(other) == old(Get(other))
    {
      if oldName !in objs {
        return;
      }
      var bo := objs[oldName];
      objs := objs[newName := bo];
      objs := objs - {oldName};
    }

    /** `Delete`: the collection is empty. */
    method Delete()
      modifies this
      ensures objs == map[]
      ensures forall name :: !Exists(name)
    {
      objs := map[];
    }

    /** `List`: every name once, in ascending map order. */
    method List() returns (l: seq<string>)
      ensures forall i, j :: 0 <= i < j < |l| ==> Below(l[i], l[j])
      ensures forall k :: k in l <==> k in objs
      ensures |l| == |objs|
    {
      l := [];
      var remaining := objs.Keys;
      while remaining != {}
        invariant forall i, j :: 0 <= i < j < |l| ==> Below(l[i], l[j])
        invariant forall k :: k in objs <==> k in l || k in remaining
        invariant forall k :: k in l ==> k !in remaining
        invariant forall i, k :: 0 <= i < |l| && k in remaining ==> Below(l[i], k)
        invariant |l| + |remaining| == |objs|
        decreases |remaining|
      {
        FirstExists(remaining);
        var m :| IsFirst(m, remaining);
        l := l + [m];
        remaining := remaining - {m};
      }
    }

    /** `Clone`: a new collection holding a copy of every entry. */
    method Clone() returns (c: Collection)
      ensures fresh(c)
      ensures c.objs == objs
    {
      var names := List();
      c := new Collection();
      c.SetAll(names, objs);
    }

    /**
     * The loop `Clone` and `operator=` share: `Set` each listed name to
     * its entry in `src`, in list order.
     */
    method SetAll(names: seq<string>, src: map<string, Bundled>)
      requires forall k :: k in names ==> k in src
      modifies this
      ensures forall k :: k in objs <==> k in old(objs) || k in names
      ensures forall k :: k in objs ==> objs[k] == if k in names then src[k] else old(objs)[k]
    {
      for i := 0 to |names|
        invariant forall k :: k in objs <==> k in old(objs) || k in names[..i]
        invariant forall k :: k in objs ==> objs[k] == if k in names[..i] then src[k] else old(objs)[k]
      {
        Set(names[i], src[names[i]]);
        assert names[..i + 1] == names[..i] + [names[i]];
      }
      assert names[..|names|] == names;
    }

    /**
     * `operator=` as written: it first empties this collection and then
     * copies the entries of `col`, so assigning a collection to itself
     * leaves it empty.
     */
    method AssignAsWritten(col: Collection)
      modifies this
      ensures col != this ==> objs == old(col.objs)
      ensures col == this ==> objs == map[]
    {
      Delete();
      var names := col.List();
      SetAll(names, col.objs);
    }

    /**
     * `operator=` with the self-assignment guard it needs: afterwards this
     * collection holds exactly the entries `col` held.
     */
    method Assign(col: Collection)
      modifies this
      ensures objs == old(col.objs)
    {
      if col == this {
        return;
      }
      AssignAsWritten(col);
    }

    /** `GetValue`: the value under `name` if it is a primitive value of type `t`. */
    function GetValue(name: string, t: Prim): (r: Result<real, Abort>)
      reads this
      ensures r.Ok? ==> name in objs && objs[name] == BundledValue(t, r.value)
      ensures name in objs && objs[name].BundledValue? && objs[name].t == t ==> r.Ok?
      ensures r.Err? ==> r.error == CannotConvert(name)
    {
      match Get(name)
      case Some(BundledValue(t', v)) => if t' == t then Ok(v) else Err(CannotConvert(name))
      case _ => Err(CannotConvert(name))
    }

    /** `GetArray`: the array under `name` if it is an array of type `t`. */
    function GetArray(name: string, t: Prim): (r: Result<seq<real>, Abort>)
      reads this
      ensures r.Ok? ==> name in objs && objs[name] == BundledArray(t, r.value)
      ensures name in objs && objs[name].BundledArray? && objs[name].t == t ==> r.Ok?
      ensures r.Err? ==> r.error == CannotConvert(name)
    {
      match Get(name)
      case Some(BundledArray(t', items)) => if t' == t then Ok(items) else Err(CannotConvert(name))
      case _ => Err(CannotConvert(name))
    }

    /** `GetArraySize`: the number of items of that array, with the same check. */
    function GetArraySize(name: string, t: Prim): (r: Result<int, Abort>)
      reads this
      ensures r.Ok? <==> GetArray(name, t).Ok?
      ensures r.Ok? ==> r.value == |GetArray(name, t).value|
    {
      match GetArray(name, t)
      case Ok(items) => Ok(|items|)
      case Err(e) => Err(e)
    }

    /**
     * `GetPobject`: the object under `name` if it is a bundled object; the
     * cast to the requested object type is not checked.
     */
    function GetPobject(name: string): (r: Result<ObjectId, Abort>)
      reads this
      ensures r.Ok? ==> name in objs && objs[name] == BundledPobject(r.value)
      ensures name in objs && objs[name].BundledPobject? ==> r.Ok?
      ensures r.Err? ==> r.error == CannotConvert(name)
    {
      match Get(name)
      case Some(BundledPobject(o)) => Ok(o)
      case _ => Err(CannotConvert(name))
    }

    /** `GetPArray`: the object array under `name` if there is one. */
    function GetPArray(name: string): (r: Result<seq<ObjectId>, Abort>)
      reads this
      ensures r.Ok? ==> name in objs && objs[name] == BundledPArray(r.value)
      ensures name in objs && objs[name].BundledPArray? ==> r.Ok?
      ensures r.Err? ==> r.error == CannotConvert(name)
    {
      match Get(name)
      case Some(BundledPArray(os)) => Ok(os)
      case _ => Err(CannotConvert(name))
    }

    /** `GetPArraySize`: the number of objects of that array, with the same check. */
    function GetPArraySize(name: string): (r: Result<int, Abort>)
      reads this
      ensures r.Ok? <==> GetPArray(name).Ok?
      ensures r.Ok? ==> r.value == |GetPArray(name).value|
    {
      match GetPArray(name)
      case Ok(os) => Ok(|os|)
      case Err(e) => Err(e)
    }

    /** `SetValue`: a primitive value of type `t`, read back by `GetValue`. */
    method SetValue(name: string, t: Prim, v: real)
      modifies this
      ensures objs == old(objs)[name := BundledValue(t, v)]
      ensures GetValue(name, t) == Ok(v)
    {
      Set(name, BundledValue(t, v));
    }

    /** `SetArray`: an array of type `t`, read back by `GetArray` with its size. */
    method SetArray(name: string, t: Prim, items: seq<real>)
      modifies this
      ensures objs == old(objs)[name := BundledArray(t, items)]
      ensures GetArray(name, t) == Ok(items) && GetArraySize(name, t) == Ok(|items|)
    {
      Set(name, BundledArray(t, items));
    }

    /** `SetPobject`: an object, read back by `GetPobject`. */
    method SetPobject(name: string, o: ObjectId)
      modifies this
      ensures objs == old(objs)[name := BundledPobject(o)]
      ensures GetPobject(name) == Ok(o)
    {
      Set(name, BundledPobject(o));
    }

    /** `SetPArray`: an object array, read back by `GetPArray` with its size. */
    method SetPArray(name: string, os: seq<ObjectId>)
      modifies this
      ensures objs == old(objs)[name := BundledPArray(os)]
      ensures GetPArray(name) == Ok(os) && GetPArraySize(name) == Ok(|os|)
    {
      Set(name, BundledPArray(os));
    }

    /** Member i of the series `name` is an array of type `t`. */
    predicate IsMemberArray(name: string, i: nat, t: Prim)
      reads this
    {
      GetArray(Member(name, i), t).Ok?
    }

    /**
     * `GetNArrays`: the arrays "name.1" to "name.n" of type `t` and the
     * smallest of their sizes (MAXLONG when n is 0); the first of them
     * that is missing or of another type aborts.
     */
    method GetNArrays(name: string, n: nat, t: Prim) returns (r: Result<NArrays, Abort>)
      ensures r.Ok? <==> forall i :: 1 <= i <= n ==> IsMemberArray(name, i, t)
      ensures r.Ok? ==> |r.value.arrays| == n
      ensures r.Ok? ==> forall i :: 1 <= i <= n ==> IsMemberArray(name, i, t) && r.value.arrays[i - 1] == GetArray(Member(name, i), t).value
      ensures r.Ok? ==> r.value.minSize == MinSize(r.value.arrays)
      ensures r.Err? ==> exists i :: 1 <= i <= n && r.error == CannotConvert(Member(name, i)) && FirstFailure(name, i, t)
    {
      var tmp: seq<seq<real>> := [];
      var nin := MAXLONG;
      for i := 0 to n
        invariant |tmp| == i
        invariant forall k :: 1 <= k <= i ==> IsMemberArray(name, k, t) && tmp[k - 1] == GetArray(Member(name, k), t).value
        invariant nin == MinSize(tmp)
      {
        var nameIn := Member(name, i + 1);
        var arr := GetArray(nameIn, t);
        if arr.Err? {
          assert FirstFailure(name, i + 1, t);
          return Err(arr.error);
        }
        var size := GetArraySize(nameIn, t);
        var prev := tmp;
        tmp := tmp + [arr.value];
        assert tmp[..|tmp| - 1] == prev;
        if size.value < nin {
          nin := size.value;
        }
      }
      return Ok(NArrays(tmp, nin));
    }

    /** Member i is the first of the series that is not an array of type `t`. */
    predicate FirstFailure(name: string, i: nat, t: Prim)
      reads this
    {
      !IsMemberArray(name, i, t) && forall k :: 1 <= k < i ==> IsMemberArray(name, k, t)
    }
  }

  /**
   * Assigning a collection to itself with `operator=` as written loses
   * its entries: a collection holding "a" holds nothing afterwards.
   */
  method SelfAssignmentLosesEntries() returns (before: bool, after: bool)
    ensures before && !after
  {
    var c := new Collection();
    c.SetValue("a", Uchar, 1.0);
    before := c.Exists("a");
    c.AssignAsWritten(c);
    after := c.Exists("a");
  }

  /** With the self-assignment guard the same collection keeps its entries. */
  method SelfAssignmentKeepsEntries() returns (before: bool, after: bool)
    ensures before && after
  {
    var c := new Collection();
    c.SetValue("a", Uchar, 1.0);
    before := c.Exists("a");
    c.Assign(c);
    after := c.Exists("a");
  }
}
