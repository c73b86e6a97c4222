/** `DictionaryHelper`: conversion of a `JsonElement` into plain .NET values and
    the flattening of nested `Dictionary<string, object>` values into one level of
    dotted keys. A dictionary is the sequence of its entries in enumeration order;
    an indexer assignment to an existing key overwrites the entry in place, a new
    key is appended. */
module Dictionary {
  import opened Wrappers
  import opened Types
  import Text

  // ---- `JsonElement.TryGetInt64` and its printing inverse.

  const Int64Min: int := -0x8000_0000_0000_0000
  const Int64Max: int := 0x7FFF_FFFF_FFFF_FFFF

  predicate IsDigit(c: char) {
    '0' <= c <= '9'
  }

  predicate AllDigits(s: string) {
    |s| > 0 && forall i :: 0 <= i < |s| ==> IsDigit(s[i])
  }

  /** The number a string of decimal digits denotes. */
  function DigitsValue(s: string): nat
    requires forall i :: 0 <= i < |s| ==> IsDigit(s[i])
  {
    if |s| == 0 then 0
    else
      assert IsDigit(s[|s| - 1]);
      DigitsValue(s[..|s| - 1]) * 10 + (s[|s| - 1] as int - '0' as int)
  }

  /** `TryGetInt64` on the text of a JSON number: an optional minus sign and digits
      only (no fraction, no exponent), within the range of `long`. */
  function ParseInt64(text: string): (r: Option<int>)
    ensures r.Some? ==> Int64Min <= r.value <= Int64Max
  {
    var negative := |text| > 0 && text[0] == '-';
    var digits := if negative then text[1..] else text;
    if !AllDigits(digits) then None
    else
      var n: int := if negative then 0 - DigitsValue(digits) else DigitsValue(digits);
      if Int64Min <= n <= Int64Max then Some(n) else None
  }

  function DigitChar(d: nat): char
    requires d < 10
  {
    ('0' as int + d) as char
  }

  /** Decimal notation of a natural number. */
  function ShowNat(n: nat): (s: string)
    ensures AllDigits(s)
  {
    if n < 10 then [DigitChar(n)] else ShowNat(n / 10) + [DigitChar(n % 10)]
  }

  /** Decimal notation of an integer, as a JSON writer prints a `long`. */
  function ShowInt(n: int): string {
    if n < 0 then "-" + ShowNat(-n) else ShowNat(n)
  }

  lemma {:induction false} ShowNatRoundTrip(n: nat)
    ensures DigitsValue(ShowNat(n)) == n
  {
    if n >= 10 {
      ShowNatRoundTrip(n / 10);
      var s := ShowNat(n);
      assert s[..|s| - 1] == ShowNat(n / 10);
    }
  }

  /** Reading back a printed integer gives it again, exactly when it fits a `long`. */
  lemma Int64TextRoundTrip(n: int)
    ensures ParseInt64(ShowInt(n)) == (if Int64Min <= n <= Int64Max then Some(n) else None)
  {
    if n < 0 {
      ShowNatRoundTrip(-n);
      ParseNegative(ShowNat(-n));
    } else {
      ShowNatRoundTrip(n);
      ParseUnsigned(ShowNat(n));
    }
  }

  /** Digits without a sign read as their value, when it fits. */
  lemma ParseUnsigned(digits: string)
    requires AllDigits(digits) && |digits| > 0
    ensures var v := DigitsValue(digits);
            ParseInt64(digits) == if v <= Int64Max then Some(v) else None
  {
    assert IsDigit(digits[0]);
  }

  /** A minus sign and digits read as the negated value, when it fits. */
  lemma ParseNegative(digits: string)
    requires AllDigits(digits)
    ensures var v := 0 - DigitsValue(digits);
            ParseInt64("-" + digits) == if Int64Min <= v then Some(v) else None
  {
    assert ("-" + digits)[1..] == digits;
  }

  // ---- `ConvertJsonElement`.

  /** Keys of a dictionary are distinct. */
  predicate UniqueKeys(es: seq<Entry>) {
    forall i, j :: 0 <= i < j < |es| ==> es[i].key != es[j].key
  }

  /** Property names of a JSON object are distinct. */
  predicate UniqueNames(ms: seq<JsonProperty>) {
    forall i, j :: 0 <= i < j < |ms| ==> ms[i].name != ms[j].name
  }

  /** No JSON object in the element repeats a property name (`System.Text.Json`
      accepts such documents; `ToDictionary` does not). */
  predicate DuplicateFree(j: Json) {
    match j
    case JArray(items) => forall i :: 0 <= i < |items| ==> DuplicateFree(items[i])
    case JObject(ms) => UniqueNames(ms) && forall i :: 0 <= i < |ms| ==> DuplicateFree(ms[i].value)
    case _ => true
  }

  /** The values `ConvertJsonElement` can produce: strings of one UTF-16 unit
      become a `char` (which holds one unit),
      integers that fit become `long`, other numbers stay uninterpreted `double`s,
      arrays are `object[]` and objects are dictionaries with distinct keys. */
  predicate JsonShaped(v: Value) {
    match v
    case Null => true
    case Truth(_) => true
    case Letter(c) => c as int <= 0xFFFF
    case Str(s) => Text.Utf16Length(s) != 1
    case Number(ty, n) => ty == Int64 && Int64Min <= n <= Int64Max
    case Fractional(ty, text) => ty == Double && ParseInt64(text).None?
    case List(items) => forall i :: 0 <= i < |items| ==> JsonShaped(items[i])
    case Dict(entries) => UniqueKeys(entries) && forall i :: 0 <= i < |entries| ==> JsonShaped(entries[i].value)
    case _ => false
  }

  /** Size measure of a value, counting the dictionaries and JSON objects nested in it. */
  function Weight(v: Value): (w: nat)
    ensures w >= 1
  {
    match v
    case Dict(entries) => 1 + EntriesWeight(entries)
    case Element(j) => 1 + JsonWeight(j)
    case _ => 1
  }

  function EntriesWeight(es: seq<Entry>): nat {
    if |es| == 0 then 0 else Weight(es[0].value) + EntriesWeight(es[1..])
  }

  function JsonWeight(j: Json): (w: nat)
    ensures w >= 1
  {
    match j
    case JObject(ms) => 1 + MembersWeight(ms)
    case _ => 1
  }

  function MembersWeight(ms: seq<JsonProperty>): nat {
    if |ms| == 0 then 0 else JsonWeight(ms[0].value) + MembersWeight(ms[1..])
  }

  /** `ConvertJsonElement`: the only failure is the `ArgumentException` of
      `ToDictionary` on a repeated property name. */
  function ConvertJson(j: Json): (r: Result<Value, Exception>)
    ensures r.Success? <==> DuplicateFree(j)
    ensures r.Failure? ==> r.error == ArgumentException
    ensures r.Success? ==> JsonShaped(r.value) && Weight(r.value) <= JsonWeight(j)
  {
    match j
    case JString(s) =>
      Text.OneUtf16Unit(s);
      Success(if Text.Utf16Length(s) == 1 then Letter(s[0]) else Str(s))
    case JNumber(text) =>
      var n := ParseInt64(text);
      Success(if n.Some? then Number(Int64, n.value) else Fractional(Double, text))
    case JTrue => Success(Truth(true))
    case JFalse => Success(Truth(false))
    case JNull => Success(Null)
    case JUndefined => Success(Null)
    case JArray(items) =>
      var values :- ConvertItems(items);
      Success(List(values))
    case JObject(ms) =>
      var entries :- ConvertMembers(ms);
      if UniqueKeys(entries) then Success(Dict(entries)) else Failure(ArgumentException)
  }

  /** `EnumerateArray().Select(ConvertJsonElement).ToArray()`. */
  function ConvertItems(items: seq<Json>): (r: Result<seq<Value>, Exception>)
    ensures r.Success? <==> forall i :: 0 <= i < |items| ==> DuplicateFree(items[i])
    ensures r.Failure? ==> r.error == ArgumentException
    ensures r.Success? ==> |r.value| == |items| && forall i :: 0 <= i < |items| ==> JsonShaped(r.value[i])
  {
    if |items| == 0 then Success([])
    else
      var head :- ConvertJson(items[0]);
      var tail :- ConvertItems(items[1..]);
      assert forall i :: 1 <= i < |items| ==> items[i] == items[1..][i - 1];
      Success([head] + tail)
  }

  /** The key/value pairs of `EnumerateObject().ToDictionary(...)`, before the
      duplicate-key test. */
  function ConvertMembers(ms: seq<JsonProperty>): (r: Result<seq<Entry>, Exception>)
    ensures r.Success? <==> forall i :: 0 <= i < |ms| ==> DuplicateFree(ms[i].value)
    ensures r.Failure? ==> r.error == ArgumentException
    ensures r.Success? ==> |r.value| == |ms| && forall i :: 0 <= i < |ms| ==> r.value[i].key == ms[i].name
    ensures r.Success? ==> (forall i :: 0 <= i < |ms| ==> JsonShaped(r.value[i].value)) && EntriesWeight(r.value) <= MembersWeight(ms)
  {
    if |ms| == 0 then Success([])
    else
      var head :- ConvertJson(ms[0].value);
      var tail :- ConvertMembers(ms[1..]);
      assert forall i :: 1 <= i < |ms| ==> ms[i] == ms[1..][i - 1];
      var r := [Entry(ms[0].name, head)] + tail;
      assert r[1..] == tail;
      Success(r)
  }

  /** The JSON text a converted value came from, up to the spelling of numbers and
      `undefined`: the inverse of `ConvertJson` on its image. */
  function ToJson(v: Value): Json
    requires JsonShaped(v)
  {
    match v
    case Truth(b) => if b then JTrue else JFalse
    case Letter(c) => JString([c])
    case Str(s) => JString(s)
    case Number(_, n) => JNumber(ShowInt(n))
    case Fractional(_, text) => JNumber(text)
    case List(items) => JArray(ToJsonItems(items))
    case Dict(entries) => JObject(ToJsonMembers(entries))
    case _ => JNull
  }

  function ToJsonItems(items: seq<Value>): (js: seq<Json>)
    requires forall i :: 0 <= i < |items| ==> JsonShaped(items[i])
    ensures |js| == |items|
  {
    if |items| == 0 then [] else [ToJson(items[0])] + ToJsonItems(items[1..])
  }

  function ToJsonMembers(entries: seq<Entry>): (ms: seq<JsonProperty>)
    requires forall i :: 0 <= i < |entries| ==> JsonShaped(entries[i].value)
    ensures |ms| == |entries| && forall i :: 0 <= i < |entries| ==> ms[i].name == entries[i].key
  {
    if |entries| == 0 then []
    else
      var rest := ToJsonMembers(entries[1..]);
      var ms := [JsonProperty(entries[0].key, ToJson(entries[0].value))] + rest;
      assert forall i :: 1 <= i < |entries| ==> ms[i].name == rest[i - 1].name && entries[i] == entries[1..][i - 1];
      ms
  }

  /** Every value `ConvertJson` can produce is produced by the element `ToJson`
      writes for it: together with the `JsonShaped` postcondition this says the
      image of `ConvertJson` is exactly the `JsonShaped` values. */
  lemma {:induction false} ToJsonRoundTrip(v: Value)
    requires JsonShaped(v)
    ensures ConvertJson(ToJson(v)) == Success(v)
    decreases v
  {
    match v
    case Number(_, n) => Int64TextRoundTrip(n);
    case List(items) => ItemsRoundTrip(items);
    case Dict(entries) => MembersRoundTrip(entries);
    case _ =>
  }

  lemma {:induction false} ItemsRoundTrip(items: seq<Value>)
    requires forall i :: 0 <= i < |items| ==> JsonShaped(items[i])
    ensures ConvertItems(ToJsonItems(items)) == Success(items)
    decreases items
  {
    if |items| > 0 {
      ToJsonRoundTrip(items[0]);
      ItemsRoundTrip(items[1..]);
      assert ToJsonItems(items)[1..] == ToJsonItems(items[1..]);
      assert [items[0]] + items[1..] == items;
    }
  }

  lemma {:induction false} MembersRoundTrip(entries: seq<Entry>)
    requires forall i :: 0 <= i < |entries| ==> JsonShaped(entries[i].value)
    ensures ConvertMembers(ToJsonMembers(entries)) == Success(entries)
    decreases entries
  {
    if |entries| > 0 {
      ToJsonRoundTrip(entries[0].value);
      MembersRoundTrip(entries[1..]);
      assert ToJsonMembers(entries)[1..] == ToJsonMembers(entries[1..]);
      assert [Entry(entries[0].key, entries[0].value)] + entries[1..] == entries;
    }
  }

  /** The kind of a converted value is decided by the kind of the element: a string
      becomes a `char` exactly when its `Length` is one UTF-16 unit, a number becomes a `long`
      exactly when its text is an integer within range, `null` comes from JSON
      `null` and `undefined` only. */
  lemma ConvertJsonKinds(j: Json)
    requires DuplicateFree(j)
    ensures ConvertJson(j).value.Letter? <==> j.JString? && Text.Utf16Length(j.s) == 1
    ensures ConvertJson(j).value.Str? <==> j.JString? && Text.Utf16Length(j.s) != 1
    ensures ConvertJson(j).value.Number? <==> j.JNumber? && ParseInt64(j.text).Some?
    ensures ConvertJson(j).value.Null? <==> j.JNull? || j.JUndefined?
    ensures ConvertJson(j).value.Truth? ==> (ConvertJson(j).value.b <==> j.JTrue?)
    ensures ConvertJson(j).value.Dict? <==> j.JObject?
    ensures ConvertJson(j).value.List? <==> j.JArray?
  {
  }

  /** A single character outside the Basic Multilingual Plane is two UTF-16 units
      long, so it stays a string rather than becoming a `char`. */
  lemma SurrogatePairStaysString()
    ensures ConvertJson(JString("\U{1F600}")) == Success(Str("\U{1F600}"))
  {
    assert Text.Utf16Length("\U{1F600}") == 2 by {
      assert "\U{1F600}"[1..] == [];
    }
  }

  // ---- `FlattenDictionary`.

  /** A dictionary value is replaced by its JSON conversion first when it is an
      unconverted `JsonElement`. */
  function Resolve(v: Value): (r: Result<Value, Exception>)
    ensures r.Success? ==> !r.value.Element? && Weight(r.value) <= Weight(v)
    ensures !v.Element? ==> r == Success(v)
  {
    if v.Element? then ConvertJson(v.json) else Success(v)
  }

  /** The flattened key of an entry below `parentKey`. */
  function JoinKey(parentKey: string, key: string): string {
    if |parentKey| == 0 then key else parentKey + "." + key
  }

  /** A value that is stored as it is: neither a dictionary nor an unconverted
      JSON element. */
  predicate IsLeaf(v: Value) {
    !v.Dict? && !v.Element?
  }

  predicate AllLeaves(d: seq<Entry>) {
    forall i :: 0 <= i < |d| ==> IsLeaf(d[i].value)
  }

  /** Dictionary lookup: the value of the first entry with the key. */
  function Lookup(d: seq<Entry>, k: string): Option<Value> {
    if |d| == 0 then None else if d[0].key == k then Some(d[0].value) else Lookup(d[1..], k)
  }

  /** `d[k] = v`: overwrite the entry in place, or append a new one. */
  function Put(d: seq<Entry>, k: string, v: Value): (r: seq<Entry>)
    ensures (exists i :: 0 <= i < |d| && d[i].key == k) ==> |r| == |d|
    ensures (forall i :: 0 <= i < |d| ==> d[i].key != k) ==> r == d + [Entry(k, v)]
    ensures forall i :: 0 <= i < |d| ==> r[i].key == d[i].key
    ensures forall i :: 0 <= i < |r| ==> r[i].key == k || (i < |d| && r[i].key == d[i].key)
    ensures UniqueKeys(d) ==> UniqueKeys(r)
    ensures AllLeaves(d) && IsLeaf(v) ==> AllLeaves(r)
  {
    if |d| == 0 then [Entry(k, v)]
    else if d[0].key == k then [Entry(k, v)] + d[1..]
    else
      var rest := Put(d[1..], k, v);
      assert d == [d[0]] + d[1..];
      PutCons(d[0], d[1..], k, v, rest);
      [d[0]] + rest
  }

  /** The step case of `Put`: an entry `e` with another key is kept in front of
      `rest`, the result of writing into the tail `t`. */
  lemma PutCons(e: Entry, t: seq<Entry>, k: string, v: Value, rest: seq<Entry>)
    requires e.key != k
    requires (exists i :: 0 <= i < |t| && t[i].key == k) ==> |rest| == |t|
    requires (forall i :: 0 <= i < |t| ==> t[i].key != k) ==> rest == t + [Entry(k, v)]
    requires forall i :: 0 <= i < |t| ==> rest[i].key == t[i].key
    requires forall i :: 0 <= i < |rest| ==> rest[i].key == k || (i < |t| && rest[i].key == t[i].key)
    requires UniqueKeys(t) ==> UniqueKeys(rest)
    requires AllLeaves(t) && IsLeaf(v) ==> AllLeaves(rest)
    ensures var d := [e] + t;
            var r := [e] + rest;
            && ((exists i :: 0 <= i < |d| && d[i].key == k) ==> |r| == |d|)
            && ((forall i :: 0 <= i < |d| ==> d[i].key != k) ==> r == d + [Entry(k, v)])
            && (forall i :: 0 <= i < |d| ==> r[i].key == d[i].key)
            && (forall i :: 0 <= i < |r| ==> r[i].key == k || (i < |d| && r[i].key == d[i].key))
            && (UniqueKeys(d) ==> UniqueKeys(r))
            && (AllLeaves(d) && IsLeaf(v) ==> AllLeaves(r))
  {
    PutConsShape(e, t, k, v, rest);
    PutConsKeys(e, t, k, rest);
    if UniqueKeys([e] + t) {
      PutConsUnique(e, t, k, rest);
    }
    if AllLeaves([e] + t) && IsLeaf(v) {
      PutConsLeaves(e, t, v, rest);
    }
  }

  /** Length and append case of `PutCons`. */
  lemma PutConsShape(e: Entry, t: seq<Entry>, k: string, v: Value, rest: seq<Entry>)
    requires e.key != k
    requires (exists i :: 0 <= i < |t| && t[i].key == k) ==> |rest| == |t|
    requires (forall i :: 0 <= i < |t| ==> t[i].key != k) ==> rest == t + [Entry(k, v)]
    ensures (exists i :: 0 <= i < |[e] + t| && ([e] + t)[i].key == k) ==> |[e] + rest| == |[e] + t|
    ensures (forall i :: 0 <= i < |[e] + t| ==> ([e] + t)[i].key != k) ==> [e] + rest == [e] + t + [Entry(k, v)]
  {
    var d := [e] + t;
    if exists i :: 0 <= i < |d| && d[i].key == k {
      var i :| 0 <= i < |d| && d[i].key == k;
      assert t[i - 1].key == k;
    } else {
      forall i | 0 <= i < |t|
        ensures t[i].key != k
      {
        assert t[i] == d[i + 1];
      }
    }
  }

  /** Key positions in `PutCons`. */
  lemma PutConsKeys(e: Entry, t: seq<Entry>, k: string, rest: seq<Entry>)
    requires |t| <= |rest|
    requires forall i :: 0 <= i < |t| ==> rest[i].key == t[i].key
    requires forall i :: 0 <= i < |rest| ==> rest[i].key == k || (i < |t| && rest[i].key == t[i].key)
    ensures forall i :: 0 <= i < |[e] + t| ==> ([e] + rest)[i].key == ([e] + t)[i].key
    ensures forall i :: 0 <= i < |[e] + rest| ==>
              ([e] + rest)[i].key == k || (i < |[e] + t| && ([e] + rest)[i].key == ([e] + t)[i].key)
  {
    var d := [e] + t;
    var r := [e] + rest;
    forall i | 0 <= i < |d|
      ensures r[i].key == d[i].key
    {
      if i > 0 {
        assert d[i] == t[i - 1] && r[i] == rest[i - 1];
      }
    }
    forall i | 0 <= i < |r|
      ensures r[i].key == k || (i < |d| && r[i].key == d[i].key)
    {
      if i > 0 {
        assert r[i] == rest[i - 1];
        assert i - 1 < |t| ==> d[i] == t[i - 1];
      }
    }
  }

  /** Keys stay distinct when the front entry's key is not among the keys of
      `rest`, which are those of `t` and perhaps `k`. */
  lemma PutConsUnique(e: Entry, t: seq<Entry>, k: string, rest: seq<Entry>)
    requires e.key != k && UniqueKeys([e] + t)
    requires forall i :: 0 <= i < |rest| ==> rest[i].key == k || (i < |t| && rest[i].key == t[i].key)
    requires UniqueKeys(t) ==> UniqueKeys(rest)
    ensures UniqueKeys([e] + rest)
  {
    var d := [e] + t;
    var r := [e] + rest;
    assert UniqueKeys(t) by {
      forall i, j | 0 <= i < j < |t|
        ensures t[i].key != t[j].key
      {
        assert t[i] == d[i + 1] && t[j] == d[j + 1];
      }
    }
    forall i, j | 0 <= i < j < |r|
      ensures r[i].key != r[j].key
    {
      assert r[j] == rest[j - 1];
      if i == 0 {
        assert r[0] == e == d[0];
        if j - 1 < |t| {
          assert t[j - 1] == d[j];
        }
      } else {
        assert r[i] == rest[i - 1];
      }
    }
  }

  /** Leaf values stay leaves in `PutCons`. */
  lemma PutConsLeaves(e: Entry, t: seq<Entry>, v: Value, rest: seq<Entry>)
    requires AllLeaves([e] + t) && IsLeaf(v)
    requires AllLeaves(t) && IsLeaf(v) ==> AllLeaves(rest)
    ensures AllLeaves([e] + rest)
  {
    var d := [e] + t;
    assert AllLeaves(t) by {
      forall i | 0 <= i < |t|
        ensures IsLeaf(t[i].value)
      {
        assert t[i] == d[i + 1];
      }
    }
    var r := [e] + rest;
    forall i | 0 <= i < |r|
      ensures IsLeaf(r[i].value)
    {
      if i == 0 {
        assert r[0] == d[0];
      } else {
        assert r[i] == rest[i - 1];
      }
    }
  }

  /** Copy every entry of `inner` into `d`, in order. */
  function PutAll(d: seq<Entry>, inner: seq<Entry>): (r: seq<Entry>)
    ensures UniqueKeys(d) ==> UniqueKeys(r)
    ensures AllLeaves(d) && AllLeaves(inner) ==> AllLeaves(r)
    decreases |inner|
  {
    if |inner| == 0 then d else PutAll(Put(d, inner[0].key, inner[0].value), inner[1..])
  }

  /** Reference reading of a list of writes: the value of the last write to `k`. */
  function LastValue(writes: seq<Entry>, k: string): Option<Value> {
    if |writes| == 0 then None
    else if writes[|writes| - 1].key == k then Some(writes[|writes| - 1].value)
    else LastValue(writes[..|writes| - 1], k)
  }

  /** The dictionary `d` holds exactly the outcome of the writes: distinct keys, and
      each key maps to the value of its last write. */
  ghost predicate Represents(d: seq<Entry>, writes: seq<Entry>) {
    UniqueKeys(d) && forall k :: Lookup(d, k) == LastValue(writes, k)
  }

  /** The same outcome for every key. */
  ghost predicate SameOutcome(a: seq<Entry>, b: seq<Entry>) {
    forall k :: LastValue(a, k) == LastValue(b, k)
  }

  lemma {:induction false} PutLookup(d: seq<Entry>, k: string, v: Value, k': string)
    ensures Lookup(Put(d, k, v), k') == if k' == k then Some(v) else Lookup(d, k')
  {
    if |d| > 0 && d[0].key != k {
      PutLookup(d[1..], k, v, k');
    }
  }

  lemma LastValueSnoc(writes: seq<Entry>, e: Entry, k: string)
    ensures LastValue(writes + [e], k) == if e.key == k then Some(e.value) else LastValue(writes, k)
  {
    assert (writes + [e])[..|writes|] == writes;
  }

  /** A write to the dictionary is a write appended to the list. */
  lemma PutRepresents(d: seq<Entry>, writes: seq<Entry>, k: string, v: Value)
    requires Represents(d, writes)
    ensures Represents(Put(d, k, v), writes + [Entry(k, v)])
  {
    forall k' ensures Lookup(Put(d, k, v), k') == LastValue(writes + [Entry(k, v)], k') {
      PutLookup(d, k, v, k');
      LastValueSnoc(writes, Entry(k, v), k');
    }
  }

  lemma {:induction false} PutAllRepresents(d: seq<Entry>, writes: seq<Entry>, inner: seq<Entry>)
    requires Represents(d, writes)
    ensures Represents(PutAll(d, inner), writes + inner)
    decreases |inner|
  {
    if |inner| > 0 {
      PutRepresents(d, writes, inner[0].key, inner[0].value);
      PutAllRepresents(Put(d, inner[0].key, inner[0].value), writes + [inner[0]], inner[1..]);
      assert Entry(inner[0].key, inner[0].value) == inner[0];
      assert writes + [inner[0]] + inner[1..] == writes + inner;
    } else {
      assert writes + inner == writes;
    }
  }

  /** Later writes override earlier ones. */
  lemma {:induction false} LastValueAppend(a: seq<Entry>, b: seq<Entry>, k: string)
    ensures LastValue(a + b, k) == if LastValue(b, k).Some? then LastValue(b, k) else LastValue(a, k)
    decreases |b|
  {
    if |b| == 0 {
      assert a + b == a;
    } else {
      var front := b[..|b| - 1];
      assert (a + b)[..|a + b| - 1] == a + front;
      LastValueAppend(a, front, k);
    }
  }

  /** In a dictionary with distinct keys the first entry of a key is its last. */
  lemma {:induction false} LookupIsLastValue(d: seq<Entry>, k: string)
    requires UniqueKeys(d)
    ensures Lookup(d, k) == LastValue(d, k)
    decreases |d|
  {
    if |d| > 0 {
      LookupIsLastValue(d[1..], k);
      LastValueAppend([d[0]], d[1..], k);
      assert [d[0]] + d[1..] == d;
      if d[0].key == k {
        assert forall i :: 0 <= i < |d[1..]| ==> d[1..][i].key != k;
        NoKeyNoValue(d[1..], k);
      }
    }
  }

  lemma {:induction false} NoKeyNoValue(writes: seq<Entry>, k: string)
    requires forall i :: 0 <= i < |writes| ==> writes[i].key != k
    ensures LastValue(writes, k) == None
    decreases |writes|
  {
    if |writes| > 0 {
      NoKeyNoValue(writes[..|writes| - 1], k);
    }
  }

  /** Copying a flattened dictionary has the outcome of replaying the writes that
      produced it. */
  lemma Replay(prefix: seq<Entry>, d: seq<Entry>, writes: seq<Entry>)
    requires Represents(d, writes)
    ensures SameOutcome(prefix + d, prefix + writes)
  {
    forall k ensures LastValue(prefix + d, k) == LastValue(prefix + writes, k) {
      LookupIsLastValue(d, k);
      LastValueAppend(prefix, d, k);
      LastValueAppend(prefix, writes, k);
    }
  }

  /** `FlattenDictionary(dictionary, parentKey)`. */
  function FlattenDictionary(entries: seq<Entry>, parentKey: string): (r: Result<seq<Entry>, Exception>)
    ensures r.Success? ==> UniqueKeys(r.value) && AllLeaves(r.value)
    decreases EntriesWeight(entries), 1
  {
    FlattenInto([], entries, parentKey)
  }

  /** The `foreach` over the entries, writing into `flattened`. */
  function FlattenInto(flattened: seq<Entry>, entries: seq<Entry>, parentKey: string): (r: Result<seq<Entry>, Exception>)
    ensures r.Success? && UniqueKeys(flattened) ==> UniqueKeys(r.value)
    ensures r.Success? && AllLeaves(flattened) ==> AllLeaves(r.value)
    decreases EntriesWeight(entries), 0
  {
    if |entries| == 0 then Success(flattened)
    else
      var key := JoinKey(parentKey, entries[0].key);
      var value :- Resolve(entries[0].value);
      if value.Dict? then
        var nested :- FlattenDictionary(value.entries, key);
        FlattenInto(PutAll(flattened, nested), entries[1..], parentKey)
      else
        FlattenInto(Put(flattened, key, value), entries[1..], parentKey)
  }

  /** Reference definition: the leaf writes of a nested dictionary in depth-first
      order, each under its full dotted key. */
  function Leaves(entries: seq<Entry>, parentKey: string): (r: Result<seq<Entry>, Exception>)
    decreases EntriesWeight(entries)
  {
    if |entries| == 0 then Success([])
    else
      var key := JoinKey(parentKey, entries[0].key);
      var value :- Resolve(entries[0].value);
      var head :- if value.Dict? then Leaves(value.entries, key) else Success([Entry(key, value)]);
      var tail :- Leaves(entries[1..], parentKey);
      Success(head + tail)
  }

  /** One step of the loop on an entry whose value is a leaf. */
  lemma LeafStep(flattened: seq<Entry>, written: seq<Entry>, entries: seq<Entry>, parentKey: string)
    requires |entries| > 0 && Represents(flattened, written)
    requires Resolve(entries[0].value).Success? && !Resolve(entries[0].value).value.Dict?
    ensures var key := JoinKey(parentKey, entries[0].key);
            var value := Resolve(entries[0].value).value;
            && FlattenInto(flattened, entries, parentKey) == FlattenInto(Put(flattened, key, value), entries[1..], parentKey)
            && Represents(Put(flattened, key, value), written + [Entry(key, value)])
            && Leaves(entries, parentKey) ==
                 (var tail := Leaves(entries[1..], parentKey);
                  if tail.Success? then Success([Entry(key, value)] + tail.value) else tail)
  {
    var key := JoinKey(parentKey, entries[0].key);
    PutRepresents(flattened, written, key, Resolve(entries[0].value).value);
  }

  /** One step of the loop on an entry whose value is a dictionary. */
  lemma DictStep(flattened: seq<Entry>, written: seq<Entry>, entries: seq<Entry>, parentKey: string)
    requires |entries| > 0 && Represents(flattened, written)
    requires Resolve(entries[0].value).Success? && Resolve(entries[0].value).value.Dict?
    requires var key := JoinKey(parentKey, entries[0].key);
             var inner := Resolve(entries[0].value).value.entries;
             FlattenDictionary(inner, key).Success? && Leaves(inner, key).Success?
             && Represents(FlattenDictionary(inner, key).value, Leaves(inner, key).value)
    ensures var key := JoinKey(parentKey, entries[0].key);
            var inner := Resolve(entries[0].value).value.entries;
            var next := PutAll(flattened, FlattenDictionary(inner, key).value);
            && FlattenInto(flattened, entries, parentKey) == FlattenInto(next, entries[1..], parentKey)
            && Represents(next, written + Leaves(inner, key).value)
            && Leaves(entries, parentKey) ==
                 (var tail := Leaves(entries[1..], parentKey);
                  if tail.Success? then Success(Leaves(inner, key).value + tail.value) else tail)
  {
    var key := JoinKey(parentKey, entries[0].key);
    var inner := Resolve(entries[0].value).value.entries;
    var nested := FlattenDictionary(inner, key).value;
    var leaves := Leaves(inner, key).value;
    PutAllRepresents(flattened, written, nested);
    Replay(written, nested, leaves);
  }

  /** The loop is the replay of the leaf writes on top of what was already written;
      it fails exactly when some JSON element cannot be converted. */
  lemma {:induction false} FlattenIntoMeaning(flattened: seq<Entry>, written: seq<Entry>, entries: seq<Entry>, parentKey: string)
    requires Represents(flattened, written)
    ensures FlattenInto(flattened, entries, parentKey).Success? <==> Leaves(entries, parentKey).Success?
    ensures FlattenInto(flattened, entries, parentKey).Success? ==>
              Represents(FlattenInto(flattened, entries, parentKey).value, written + Leaves(entries, parentKey).value)
    decreases EntriesWeight(entries), 0
  {
    if |entries| == 0 {
      assert written + [] == written;
      return;
    }
    var key := JoinKey(parentKey, entries[0].key);
    var rv := Resolve(entries[0].value);
    if rv.Failure? {
      return;
    }
    var tail := Leaves(entries[1..], parentKey);
    if rv.value.Dict? {
      var inner := rv.value.entries;
      FlattenMeaning(inner, key);
      if FlattenDictionary(inner, key).Success? {
        var leaves := Leaves(inner, key).value;
        DictStep(flattened, written, entries, parentKey);
        FlattenIntoMeaning(PutAll(flattened, FlattenDictionary(inner, key).value), written + leaves, entries[1..], parentKey);
        if tail.Success? {
          assert written + leaves + tail.value == written + (leaves + tail.value);
        }
      }
    } else {
      var e := Entry(key, rv.value);
      LeafStep(flattened, written, entries, parentKey);
      FlattenIntoMeaning(Put(flattened, key, rv.value), written + [e], entries[1..], parentKey);
      if tail.Success? {
        assert written + [e] + tail.value == written + ([e] + tail.value);
      }
    }
  }

  /** The flattened dictionary maps each full key to the last leaf written under it,
      holds no other key, and exists exactly when every JSON element converts. */
  lemma {:induction false} FlattenMeaning(entries: seq<Entry>, parentKey: string)
    ensures FlattenDictionary(entries, parentKey).Success? <==> Leaves(entries, parentKey).Success?
    ensures FlattenDictionary(entries, parentKey).Success? ==>
              Represents(FlattenDictionary(entries, parentKey).value, Leaves(entries, parentKey).value)
    decreases EntriesWeight(entries), 1
  {
    FlattenIntoMeaning([], [], entries, parentKey);
    if Leaves(entries, parentKey).Success? {
      assert [] + Leaves(entries, parentKey).value == Leaves(entries, parentKey).value;
    }
  }

  /** An empty nested dictionary leaves no key behind. */
  lemma EmptyNestedVanishes(k: string, parentKey: string)
    ensures FlattenDictionary([Entry(k, Dict([]))], parentKey) == Success([])
  {
    var es := [Entry(k, Dict([]))];
    assert FlattenDictionary([], JoinKey(parentKey, k)) == Success([]);
    assert PutAll([], []) == [];
    assert FlattenInto([], es, parentKey) == FlattenInto([], es[1..], parentKey);
  }

  /** A literal dotted key and a nested one collide: the later write wins, in the
      position of the first. */
  lemma CollisionLastWriteWins()
    ensures FlattenDictionary([Entry("a.b", Truth(false)), Entry("a", Dict([Entry("b", Truth(true))]))], "")
              == Success([Entry("a.b", Truth(true))])
  {
    var inner := [Entry("b", Truth(true))];
    var es := [Entry("a.b", Truth(false)), Entry("a", Dict(inner))];
    assert JoinKey("", "a.b") == "a.b";
    assert JoinKey("", "a") == "a";
    assert JoinKey("a", "b") == "a.b";
    assert FlattenInto([Entry("a.b", Truth(true))], inner[1..], "a") == Success([Entry("a.b", Truth(true))]);
    assert FlattenDictionary(inner, "a") == Success([Entry("a.b", Truth(true))]);
    assert PutAll([Entry("a.b", Truth(false))], [Entry("a.b", Truth(true))]) == [Entry("a.b", Truth(true))];
    assert es[1..][1..] == [];
    assert FlattenInto([Entry("a.b", Truth(false))], es[1..], "") == Success([Entry("a.b", Truth(true))]);
    assert FlattenInto([], es, "") == FlattenInto([Entry("a.b", Truth(false))], es[1..], "");
  }

  /** A JSON object under a key is converted and flattened like a dictionary. */
  lemma JsonObjectFlattened()
    ensures FlattenDictionary([Entry("a", Element(JObject([JsonProperty("b", JString("xy"))])))], "p")
              == Success([Entry("p.a.b", Str("xy"))])
  {
    var ms := [JsonProperty("b", JString("xy"))];
    var es := [Entry("a", Element(JObject(ms)))];
    assert JoinKey("p", "a") == "p.a";
    assert JoinKey("p.a", "b") == "p.a.b";
    assert ConvertJson(JString("xy")) == Success(Str("xy"));
    assert ConvertMembers(ms[1..]) == Success([]);
    assert ConvertJson(ms[0].value) == Success(Str("xy"));
    assert [Entry("b", Str("xy"))] + [] == [Entry("b", Str("xy"))];
    assert ConvertMembers(ms) == Success([Entry("b", Str("xy"))]);
    var inner := [Entry("b", Str("xy"))];
    assert Resolve(es[0].value) == Success(Dict(inner));
    assert FlattenInto([Entry("p.a.b", Str("xy"))], inner[1..], "p.a") == Success([Entry("p.a.b", Str("xy"))]);
    assert FlattenDictionary(inner, "p.a") == Success([Entry("p.a.b", Str("xy"))]);
    assert PutAll([], [Entry("p.a.b", Str("xy"))]) == [Entry("p.a.b", Str("xy"))];
  }
}
