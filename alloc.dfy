/**
 Allocation of circuit inputs: field values are inserted into a string-keyed
 input map under the key `name` for a scalar, `name.i` for element `i` of a
 vector and `name.i.j` for element `j` of row `i` of a double vector, with
 every index written in decimal. The conversion `integer_to_field` and the
 value type are left abstract: the conversion is a function parameter and
 the value a type parameter.
 */
module Alloc {

  /** The decimal digit of `d`. */
  function Digit(d: nat): (c: char)
    requires d < 10
    ensures '0' <= c <= '9'
  {
    (('0' as int) + d) as char
  }

  /** `format!("{}", n)`: the decimal digits of `n`, without leading zeros. */
  function Decimal(n: nat): (s: string)
    ensures 0 < |s| && forall k :: 0 <= k < |s| ==> '0' <= s[k] <= '9'
  {
    if n < 10 then [Digit(n)] else Decimal(n / 10) + [Digit(n % 10)]
  }

  /** Distinct numbers have distinct decimal representations. */
  lemma {:induction false} DecimalInjective(a: nat, b: nat)
    requires Decimal(a) == Decimal(b)
    ensures a == b
  {
    var s := Decimal(a);
    if a < 10 && b < 10 {
      assert Digit(a) == s[0] == Digit(b);
    } else if 10 <= a && 10 <= b {
      assert Digit(a % 10) == s[|s| - 1] == Digit(b % 10);
      assert Decimal(a / 10) == s[..|s| - 1] == Decimal(b / 10);
      DecimalInjective(a / 10, b / 10);
    } else {
      assert false;
    }
  }

  /** `format!("{}.{}", name, i)`. */
  function VecKey(name: string, i: nat): (key: string)
    ensures |key| == |name| + 1 + |Decimal(i)| && key[..|name|] == name && key[|name|] == '.'
  {
    name + "." + Decimal(i)
  }

  /** The key of element `j` of row `i`: `format!("{}.{}", format!("{}.{}", name, i), j)`. */
  function DoubleKey(name: string, i: nat, j: nat): string
  {
    VecKey(VecKey(name, i), j)
  }

  /** Under one name, the keys of distinct indices are distinct. */
  lemma VecKeyInjective(name: string, i: nat, j: nat)
    requires VecKey(name, i) == VecKey(name, j)
    ensures i == j
  {
    var k := |name| + 1;
    assert Decimal(i) == VecKey(name, i)[k..] == Decimal(j);
    DecimalInjective(i, j);
  }

  /**
   Under one name, the keys of distinct index pairs are distinct: decimal
   digits contain no dot, so the first dot after the name ends the row index.
   */
  lemma DoubleKeyInjective(name: string, i: nat, j: nat, i': nat, j': nat)
    requires DoubleKey(name, i, j) == DoubleKey(name, i', j')
    ensures i == i' && j == j'
  {
    var key := DoubleKey(name, i, j);
    var n, di, di' := |name| + 1, Decimal(i), Decimal(i');
    assert key == name + "." + di + "." + Decimal(j);
    assert key == name + "." + di' + "." + Decimal(j');
    assert di == key[n..n + |di|] == di';
    DecimalInjective(i, i');
    VecKeyInjective(VecKey(name, i), j, j');
  }

  /** The keys `name.0` .. `name.(n-1)`. */
  function VecKeys(name: string, n: nat): set<string>
  {
    if n == 0 then {} else VecKeys(name, n - 1) + {VecKey(name, n - 1)}
  }

  /** The keys under `name` are those of the indices below `n`. */
  lemma {:induction false} VecKeysMember(name: string, n: nat, key: string)
    ensures key in VecKeys(name, n) <==> exists i :: 0 <= i < n && key == VecKey(name, i)
  {
    if n > 0 {
      VecKeysMember(name, n - 1, key);
      if key == VecKey(name, n - 1) {
        assert exists i :: 0 <= i < n && key == VecKey(name, i);
      }
    }
  }

  /** The key of an index at or past `n` is not among the first `n` keys. */
  lemma {:induction false} VecKeyBeyond(name: string, n: nat, i: nat)
    requires n <= i
    ensures VecKey(name, i) !in VecKeys(name, n)
  {
    if n > 0 {
      VecKeyBeyond(name, n - 1, i);
      if VecKey(name, i) == VecKey(name, n - 1) {
        VecKeyInjective(name, i, n - 1);
      }
    }
  }

  /** There are exactly `n` keys `name.0` .. `name.(n-1)`. */
  lemma {:induction false} VecKeysCount(name: string, n: nat)
    ensures |VecKeys(name, n)| == n
  {
    if n > 0 {
      VecKeysCount(name, n - 1);
      VecKeyBeyond(name, n - 1, n - 1);
    }
  }

  /** The keys `name.i.j` of every element of a double vector. */
  function DoubleVecKeys(name: string, rows: seq<seq<int>>): set<string>
  {
    if rows == [] then {}
    else DoubleVecKeys(name, rows[..|rows| - 1]) + VecKeys(VecKey(name, |rows| - 1), |rows[|rows| - 1]|)
  }

  /** The key `name.i.j` of every element of a double vector is among its keys. */
  lemma {:induction false} DoubleKeyIn(name: string, rows: seq<seq<int>>, i: nat, j: nat)
    requires i < |rows| && j < |rows[i]|
    ensures DoubleKey(name, i, j) in DoubleVecKeys(name, rows)
  {
    var k := |rows| - 1;
    var front := rows[..k];
    if i == k {
      VecKeysMember(VecKey(name, k), |rows[k]|, DoubleKey(name, i, j));
    } else {
      assert front[i] == rows[i];
      DoubleKeyIn(name, front, i, j);
    }
  }

  /** Every key of a double vector is the key `name.i.j` of one of its elements. */
  lemma {:induction false} DoubleVecKeysOnly(name: string, rows: seq<seq<int>>, key: string)
    requires key in DoubleVecKeys(name, rows)
    ensures exists i, j :: 0 <= i < |rows| && 0 <= j < |rows[i]| && key == DoubleKey(name, i, j)
  {
    var k := |rows| - 1;
    var front := rows[..k];
    if key in DoubleVecKeys(name, front) {
      DoubleVecKeysOnly(name, front, key);
      var i, j :| 0 <= i < |front| && 0 <= j < |front[i]| && key == DoubleKey(name, i, j);
      assert rows[i] == front[i];
      assert 0 <= i < |rows| && 0 <= j < |rows[i]| && key == DoubleKey(name, i, j);
    } else {
      VecKeysMember(VecKey(name, k), |rows[k]|, key);
      var j :| 0 <= j < |rows[k]| && key == VecKey(VecKey(name, k), j);
      assert 0 <= k < |rows| && 0 <= j < |rows[k]| && key == DoubleKey(name, k, j);
    }
  }

  /** The keys under `name` of a double vector are exactly those of its index pairs. */
  lemma DoubleVecKeysMember(name: string, rows: seq<seq<int>>, key: string)
    ensures key in DoubleVecKeys(name, rows) <==>
      exists i, j :: 0 <= i < |rows| && 0 <= j < |rows[i]| && key == DoubleKey(name, i, j)
  {
    if key in DoubleVecKeys(name, rows) {
      DoubleVecKeysOnly(name, rows, key);
    } else if exists i, j :: 0 <= i < |rows| && 0 <= j < |rows[i]| && key == DoubleKey(name, i, j) {
      var i, j :| 0 <= i < |rows| && 0 <= j < |rows[i]| && key == DoubleKey(name, i, j);
      DoubleKeyIn(name, rows, i, j);
    }
  }

  /** The number of elements of a double vector. */
  function TotalLength(rows: seq<seq<int>>): nat
  {
    if rows == [] then 0 else TotalLength(rows[..|rows| - 1]) + |rows[|rows| - 1]|
  }

  /** There is one key `name.i.j` per element of the double vector. */
  lemma {:induction false} DoubleVecKeysCount(name: string, rows: seq<seq<int>>)
    ensures |DoubleVecKeys(name, rows)| == TotalLength(rows)
  {
    if rows != [] {
      var k := |rows| - 1;
      var front := rows[..k];
      var earlier, last := DoubleVecKeys(name, front), VecKeys(VecKey(name, k), |rows[k]|);
      DoubleVecKeysCount(name, front);
      VecKeysCount(VecKey(name, k), |rows[k]|);
      forall key | key in earlier ensures key !in last {
        DoubleVecKeysOnly(name, front, key);
        var i, j :| 0 <= i < |front| && 0 <= j < |front[i]| && key == DoubleKey(name, i, j);
        VecKeysMember(VecKey(name, k), |rows[k]|, key);
        if key in last {
          var j' :| 0 <= j' < |rows[k]| && key == VecKey(VecKey(name, k), j');
          DoubleKeyInjective(name, i, j, k, j');
        }
      }
      assert earlier * last == {};
    }
  }

  /** The map after `map_field`: `name` bound to the converted input. */
  function FieldInserted<V>(m: map<string, V>, input: int, modulus: int, name: string,
                            toField: (int, int) -> V): (r: map<string, V>)
    ensures r.Keys == m.Keys + {name} && r[name] == toField(input, modulus)
    ensures forall key :: key in m && key != name ==> r[key] == m[key]
  {
    m[name := toField(input, modulus)]
  }

  /** `map_field` twice with the same arguments gives the map of one call. */
  lemma FieldInsertedIdempotent<V>(m: map<string, V>, input: int, modulus: int, name: string,
                                   toField: (int, int) -> V)
    ensures var once := FieldInserted(m, input, modulus, name, toField);
      FieldInserted(once, input, modulus, name, toField) == once
  {
  }

  /** The map after `map_field_vec`: element `i` inserted under `name.i`, in index order. */
  function VecInserted<V>(m: map<string, V>, vec: seq<int>, modulus: int, name: string,
                          toField: (int, int) -> V): map<string, V>
  {
    if vec == [] then m
    else
      var i := |vec| - 1;
      VecInserted(m, vec[..i], modulus, name, toField)[VecKey(name, i) := toField(vec[i], modulus)]
  }

  /** After `map_field_vec` the keys are the old ones and the `|vec|` keys `name.i`. */
  lemma {:induction false} VecInsertedKeys<V>(m: map<string, V>, vec: seq<int>, modulus: int, name: string,
                                              toField: (int, int) -> V)
    ensures VecInserted(m, vec, modulus, name, toField).Keys == m.Keys + VecKeys(name, |vec|)
  {
    if vec != [] {
      VecInsertedKeys(m, vec[..|vec| - 1], modulus, name, toField);
    }
  }

  /** After `map_field_vec` the key `name.i` holds the converted element `i`. */
  lemma {:induction false} VecInsertedAt<V>(m: map<string, V>, vec: seq<int>, modulus: int, name: string,
                                            toField: (int, int) -> V, i: nat)
    requires i < |vec|
    ensures VecKey(name, i) in VecInserted(m, vec, modulus, name, toField)
    ensures VecInserted(m, vec, modulus, name, toField)[VecKey(name, i)] == toField(vec[i], modulus)
  {
    var k := |vec| - 1;
    if i < k {
      VecInsertedAt(m, vec[..k], modulus, name, toField, i);
      if VecKey(name, i) == VecKey(name, k) {
        VecKeyInjective(name, i, k);
      }
    }
  }

  /** `map_field_vec` leaves every key outside `name.0` .. `name.(|vec|-1)` as it was. */
  lemma {:induction false} VecInsertedOther<V>(m: map<string, V>, vec: seq<int>, modulus: int, name: string,
                                               toField: (int, int) -> V, key: string)
    requires key in m && key !in VecKeys(name, |vec|)
    ensures key in VecInserted(m, vec, modulus, name, toField)
    ensures VecInserted(m, vec, modulus, name, toField)[key] == m[key]
  {
    if vec != [] {
      VecInsertedOther(m, vec[..|vec| - 1], modulus, name, toField, key);
    }
  }

  /** Inserting elements that are already present under their keys changes nothing. */
  lemma {:induction false} VecInsertedFixed<V>(m: map<string, V>, vec: seq<int>, modulus: int, name: string,
                                               toField: (int, int) -> V)
    requires forall i :: 0 <= i < |vec| ==> VecKey(name, i) in m && m[VecKey(name, i)] == toField(vec[i], modulus)
    ensures VecInserted(m, vec, modulus, name, toField) == m
  {
    if vec != [] {
      var k := |vec| - 1;
      assert forall i :: 0 <= i < k ==> vec[..k][i] == vec[i];
      VecInsertedFixed(m, vec[..k], modulus, name, toField);
    }
  }

  /** `map_field_vec` twice with the same arguments gives the map of one call. */
  lemma VecInsertedIdempotent<V>(m: map<string, V>, vec: seq<int>, modulus: int, name: string,
                                 toField: (int, int) -> V)
    ensures var once := VecInserted(m, vec, modulus, name, toField);
      VecInserted(once, vec, modulus, name, toField) == once
  {
    var once := VecInserted(m, vec, modulus, name, toField);
    forall i | 0 <= i < |vec| ensures VecKey(name, i) in once && once[VecKey(name, i)] == toField(vec[i], modulus) {
      VecInsertedAt(m, vec, modulus, name, toField, i);
    }
    VecInsertedFixed(once, vec, modulus, name, toField);
  }

  /** The map after `map_field_double_vec`: row `i` inserted as a vector under the name `name.i`, in row order. */
  function DoubleVecInserted<V>(m: map<string, V>, rows: seq<seq<int>>, modulus: int, name: string,
                                toField: (int, int) -> V): map<string, V>
  {
    if rows == [] then m
    else
      var i := |rows| - 1;
      VecInserted(DoubleVecInserted(m, rows[..i], modulus, name, toField), rows[i], modulus, VecKey(name, i), toField)
  }

  /** After `map_field_double_vec` the keys are the old ones and the keys `name.i.j` of all elements. */
  lemma {:induction false} DoubleVecInsertedKeys<V>(m: map<string, V>, rows: seq<seq<int>>, modulus: int,
                                                    name: string, toField: (int, int) -> V)
    ensures DoubleVecInserted(m, rows, modulus, name, toField).Keys == m.Keys + DoubleVecKeys(name, rows)
  {
    if rows != [] {
      var k := |rows| - 1;
      DoubleVecInsertedKeys(m, rows[..k], modulus, name, toField);
      VecInsertedKeys(DoubleVecInserted(m, rows[..k], modulus, name, toField), rows[k], modulus, VecKey(name, k), toField);
    }
  }

  /** After `map_field_double_vec` the key `name.i.j` holds the converted element `j` of row `i`. */
  lemma {:induction false} DoubleVecInsertedAt<V>(m: map<string, V>, rows: seq<seq<int>>, modulus: int,
                                                  name: string, toField: (int, int) -> V, i: nat, j: nat)
    requires i < |rows| && j < |rows[i]|
    ensures DoubleKey(name, i, j) in DoubleVecInserted(m, rows, modulus, name, toField)
    ensures DoubleVecInserted(m, rows, modulus, name, toField)[DoubleKey(name, i, j)] == toField(rows[i][j], modulus)
  {
    var k := |rows| - 1;
    var front := rows[..k];
    var before := DoubleVecInserted(m, front, modulus, name, toField);
    var key := DoubleKey(name, i, j);
    if i == k {
      VecInsertedAt(before, rows[k], modulus, VecKey(name, k), toField, j);
    } else {
      assert front[i] == rows[i];
      DoubleVecInsertedAt(m, front, modulus, name, toField, i, j);
      VecKeysMember(VecKey(name, k), |rows[k]|, key);
      if key in VecKeys(VecKey(name, k), |rows[k]|) {
        var j' :| 0 <= j' < |rows[k]| && key == VecKey(VecKey(name, k), j');
        DoubleKeyInjective(name, i, j, k, j');
      }
      VecInsertedOther(before, rows[k], modulus, VecKey(name, k), toField, key);
    }
  }

  /** `map_field_double_vec` leaves every key outside the keys `name.i.j` of its elements as it was. */
  lemma {:induction false} DoubleVecInsertedOther<V>(m: map<string, V>, rows: seq<seq<int>>, modulus: int,
                                                     name: string, toField: (int, int) -> V, key: string)
    requires key in m && key !in DoubleVecKeys(name, rows)
    ensures key in DoubleVecInserted(m, rows, modulus, name, toField)
    ensures DoubleVecInserted(m, rows, modulus, name, toField)[key] == m[key]
  {
    if rows != [] {
      var k := |rows| - 1;
      DoubleVecInsertedOther(m, rows[..k], modulus, name, toField, key);
      VecInsertedOther(DoubleVecInserted(m, rows[..k], modulus, name, toField), rows[k], modulus, VecKey(name, k), toField, key);
    }
  }

  /** Inserting a double vector whose elements are already present under their keys changes nothing. */
  lemma {:induction false} DoubleVecInsertedFixed<V>(m: map<string, V>, rows: seq<seq<int>>, modulus: int,
                                                     name: string, toField: (int, int) -> V)
    requires forall i, j :: 0 <= i < |rows| && 0 <= j < |rows[i]| ==>
      DoubleKey(name, i, j) in m && m[DoubleKey(name, i, j)] == toField(rows[i][j], modulus)
    ensures DoubleVecInserted(m, rows, modulus, name, toField) == m
  {
    if rows != [] {
      var k := |rows| - 1;
      assert forall i :: 0 <= i < k ==> rows[..k][i] == rows[i];
      DoubleVecInsertedFixed(m, rows[..k], modulus, name, toField);
      forall j | 0 <= j < |rows[k]|
        ensures VecKey(VecKey(name, k), j) in m && m[VecKey(VecKey(name, k), j)] == toField(rows[k][j], modulus)
      {
        assert DoubleKey(name, k, j) == VecKey(VecKey(name, k), j);
      }
      VecInsertedFixed(m, rows[k], modulus, VecKey(name, k), toField);
    }
  }

  /** `map_field_double_vec` twice with the same arguments gives the map of one call. */
  lemma DoubleVecInsertedIdempotent<V>(m: map<string, V>, rows: seq<seq<int>>, modulus: int, name: string,
                                       toField: (int, int) -> V)
    ensures var once := DoubleVecInserted(m, rows, modulus, name, toField);
      DoubleVecInserted(once, rows, modulus, name, toField) == once
  {
    var once := DoubleVecInserted(m, rows, modulus, name, toField);
    forall i, j | 0 <= i < |rows| && 0 <= j < |rows[i]|
      ensures DoubleKey(name, i, j) in once && once[DoubleKey(name, i, j)] == toField(rows[i][j], modulus)
    {
      DoubleVecInsertedAt(m, rows, modulus, name, toField, i, j);
    }
    DoubleVecInsertedFixed(once, rows, modulus, name, toField);
  }

  /** The `HashMap<String, Value>` the inputs are allocated into. */
  class InputMap<V> {
    var entries: map<string, V>

    constructor (entries: map<string, V>)
      ensures this.entries == entries
    {
      this.entries := entries;
    }

    /** `insert`: bind `key` to `value`, replacing any earlier value. */
    method Insert(key: string, value: V)
      modifies this
      ensures entries == old(entries)[key := value]
    {
      entries := entries[key := value];
    }
  }

  /** `map_field`: insert the converted input under `name`. */
  method MapField<V>(input: int, modulus: int, name: string, inputMap: InputMap<V>, toField: (int, int) -> V)
    modifies inputMap
    ensures inputMap.entries == FieldInserted(old(inputMap.entries), input, modulus, name, toField)
  {
    inputMap.Insert(name, toField(input, modulus));
  }

  /** `map_field_vec`: insert each converted element `i` under `name.i`. */
  method MapFieldVec<V>(vec: seq<int>, modulus: int, name: string, inputMap: InputMap<V>, toField: (int, int) -> V)
    modifies inputMap
    ensures inputMap.entries == VecInserted(old(inputMap.entries), vec, modulus, name, toField)
  {
    for i := 0 to |vec|
      invariant inputMap.entries == VecInserted(old(inputMap.entries), vec[..i], modulus, name, toField)
    {
      assert vec[..i + 1][..i] == vec[..i];
      inputMap.Insert(VecKey(name, i), toField(vec[i], modulus));
    }
    assert vec[..|vec|] == vec;
  }

  /** `map_field_double_vec`: insert each row `i` as a vector under the name `name.i`. */
  method MapFieldDoubleVec<V>(rows: seq<seq<int>>, modulus: int, name: string, inputMap: InputMap<V>,
                              toField: (int, int) -> V)
    modifies inputMap
    ensures inputMap.entries == DoubleVecInserted(old(inputMap.entries), rows, modulus, name, toField)
  {
    for i := 0 to |rows|
      invariant inputMap.entries == DoubleVecInserted(old(inputMap.entries), rows[..i], modulus, name, toField)
    {
      assert rows[..i + 1][..i] == rows[..i];
      MapFieldVec(rows[i], modulus, VecKey(name, i), inputMap, toField);
    }
    assert rows[..|rows|] == rows;
  }
}
