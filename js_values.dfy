/**
 * The JavaScript values the admin API and the seeding scripts work with:
 * optional request fields, plain objects with string keys (as parsed from
 * JSON), `Array.prototype.join` and the "is this string blank" test behind
 * `String.prototype.trim`.
 */
module JsValues {

  datatype Option<+T> = None | Some(value: T)

  /** A request field that may be missing; it is truthy when present and not the empty string. */
  predicate Truthy(s: Option<string>) {
    s.Some? && s.value != ""
  }

  /** No element occurs twice in `xs`. */
  predicate Distinct<T(==)>(xs: seq<T>) {
    forall i, j :: 0 <= i < j < |xs| ==> xs[i] != xs[j]
  }

  /** A list without repetitions has as many elements as the set of its elements. */
  lemma {:induction false} DistinctCard<T>(xs: seq<T>)
    requires Distinct(xs)
    ensures |set x | x in xs| == |xs|
  {
    if xs != [] {
      var init := xs[..|xs| - 1];
      DistinctCard(init);
      assert (set x | x in xs) == (set x | x in init) + {xs[|xs| - 1]};
    }
  }

  /**
   * A plain JavaScript object with string keys: `keys` is what `Object.keys`
   * enumerates (insertion order), `fields` maps each own key to its value.
   */
  datatype Obj<V> = Obj(keys: seq<string>, fields: map<string, V>) {

    /** Every own key is enumerated exactly once. */
    predicate Valid() {
      Distinct(keys) && fields.Keys == set k | k in keys
    }

    /**
     * `o[k] = v`: an existing key keeps its place in the enumeration, a new
     * key is enumerated last.
     */
    function Put(k: string, v: V): (r: Obj<V>)
      ensures Valid() ==> r.Valid()
      ensures r.fields == fields[k := v]
      ensures r.keys == if k in fields then keys else keys + [k]
    {
      Obj(if k in fields then keys else keys + [k], fields[k := v])
    }
  }

  /** `{}` */
  function EmptyObj<V>(): (r: Obj<V>)
    ensures r.Valid() && r.keys == [] && r.fields == map[]
  {
    Obj([], map[])
  }

  /** An object of objects in which every inner object is well formed too. */
  predicate ValidNested<V>(o: Obj<Obj<V>>) {
    o.Valid() && forall k :: k in o.fields ==> o.fields[k].Valid()
  }

  /** `xs.join(sep)` */
  function Join(xs: seq<string>, sep: string): string {
    if |xs| == 0 then ""
    else if |xs| == 1 then xs[0]
    else xs[0] + sep + Join(xs[1..], sep)
  }

  /**
   * The characters `String.prototype.trim` removes: the ECMAScript
   * WhiteSpace characters (tab, vertical tab, form feed, the byte order
   * mark and the Unicode space separators) and the LineTerminator ones.
   */
  predicate IsJsSpace(c: char) {
    var n := c as int;
    || n == 0x09 || n == 0x0A || n == 0x0B || n == 0x0C || n == 0x0D
    || n == 0x20 || n == 0xA0 || n == 0x1680
    || (0x2000 <= n <= 0x200A)
    || n == 0x2028 || n == 0x2029 || n == 0x202F || n == 0x205F
    || n == 0x3000 || n == 0xFEFF
  }

  /** `s.trim() === ""`: the string is empty or made of white space only. */
  predicate IsBlank(s: string) {
    forall i :: 0 <= i < |s| ==> IsJsSpace(s[i])
  }
}
