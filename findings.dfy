/** The frequency loop `freq[word] = (freq[word] || 0) + 1` as written, over a
    plain object `{}`: a key the object does not own is looked up on
    `Object.prototype`. Among lower-case tokens one name is found there,
    "constructor", whose value is the `Object` function; the loop then counts
    that word as a string. */
module PlainObject {
  import opened Ranking

  /** The values the loop can meet. */
  datatype JsValue = Undefined | Num(n: int) | Str(s: string) | NativeFunction

  /** `String(Object)` */
  const ObjectSource: string := "function Object() { [native code] }"

  /** The lower-case letters-only names that `Object.prototype` provides. */
  function Inherited(key: string): JsValue {
    if key == "constructor" then NativeFunction else Undefined
  }

  /** `obj[key]`: an own property, or else the inherited one. */
  function Get(obj: map<string, JsValue>, key: string): JsValue {
    if key in obj then obj[key] else Inherited(key)
  }

  predicate Truthy(v: JsValue) {
    match v
    case Undefined => false
    case Num(n) => n != 0
    case Str(s) => s != []
    case NativeFunction => true
  }

  /** `v || 0` */
  function OrZero(v: JsValue): (r: JsValue)
    ensures !r.Undefined?
  {
    if Truthy(v) then v else Num(0)
  }

  /** `v + 1`: numbers add, anything else is turned into a string and gets "1"
      appended. */
  function PlusOne(v: JsValue): JsValue
    requires !v.Undefined?
  {
    match v
    case Num(n) => Num(n + 1)
    case Str(s) => Str(s + "1")
    case NativeFunction => Str(ObjectSource + "1")
  }

  /** The object after the loop has run over keys, as written. */
  function CountAsWritten(keys: seq<string>): map<string, JsValue> {
    if keys == [] then map[]
    else
      var obj := CountAsWritten(keys[..|keys| - 1]);
      var key := keys[|keys| - 1];
      obj[key := PlusOne(OrZero(Get(obj, key)))]
  }

  /** For every key but "constructor" the loop counts as intended: the key is
      present exactly when it occurs, with its number of occurrences. */
  lemma {:induction false} CountAsWrittenAgrees(keys: seq<string>, k: string)
    requires k != "constructor"
    ensures k in CountAsWritten(keys) <==> k in keys
    ensures k in keys ==> CountAsWritten(keys)[k] == Num(multiset(keys)[k])
  {
    if keys != [] {
      var init := keys[..|keys| - 1];
      CountAsWrittenAgrees(init, k);
      assert keys == init + [keys[|keys| - 1]];
    }
  }

  /** A page that says "constructor" twice: the count is a string, not 2. */
  lemma ConstructorMiscounted()
    ensures CountAsWritten(["constructor", "constructor"])["constructor"] == Str(ObjectSource + "11")
    ensures CountAsWritten(["constructor", "constructor"])["constructor"] != Num(2)
  {
    var once := CountAsWritten(["constructor"]);
    assert ["constructor", "constructor"][..1] == ["constructor"];
    assert [ "constructor"][..0] == [];
    assert once["constructor"] == Str(ObjectSource + "1");
    assert ObjectSource + "1" + "1" == ObjectSource + "11";
  }

  /** The intended count of the same list: "constructor" occurs twice. */
  lemma ConstructorCountedIntended()
    ensures Tally(["constructor", "constructor"]) == [Row("constructor", 2)]
  {
    var k := "constructor";
    var keys := [k, k];
    assert keys[..1] == [k] && [k][..0] == [];
    assert Distinct([k]) == [k];
    assert Distinct(keys) == [k];
    assert multiset(keys) == multiset{k, k};
  }
}
