/** The ESP32 profile: from a list of channel mappings to the acquisition and actuation schemas. */
module Profile {
  import opened Bytes
  import opened Numbers
  import opened DaqSchema

  datatype Channel = Channel(name: string, gpio: Byte, function_: nat, wire: nat, offset: Word16, width: Word16)

  const ACQUISITION: seq<Channel> := [
    Channel("GPIO4_DI", 4, DI, BOOL, 0, 1), Channel("GPIO13_DI", 13, DI, BOOL, 1, 1),
    Channel("GPIO14_DI", 14, DI, BOOL, 2, 1), Channel("GPIO27_DI", 27, DI, BOOL, 3, 1),
    Channel("GPIO32_AI", 32, AI, FLOAT32, 4, 4), Channel("GPIO33_AI", 33, AI, FLOAT32, 8, 4),
    Channel("GPIO34_AI", 34, AI, FLOAT32, 12, 4), Channel("GPIO35_AI", 35, AI, FLOAT32, 16, 4),
    Channel("GPIO36_AI", 36, AI, FLOAT32, 20, 4), Channel("GPIO39_AI", 39, AI, FLOAT32, 24, 4)]

  const ACQUISITION_SIZE := 28

  const ACTUATION: seq<Channel> := [
    Channel("GPIO16_DO", 16, DO, BOOL, 0, 1), Channel("GPIO17_DO", 17, DO, BOOL, 1, 1),
    Channel("GPIO18_PWM", 18, PWM, FLOAT32, 2, 4), Channel("GPIO19_PWM", 19, PWM, FLOAT32, 6, 4),
    Channel("GPIO21_DO", 21, DO, BOOL, 10, 1), Channel("GPIO22_DO", 22, DO, BOOL, 11, 1),
    Channel("GPIO23_DO", 23, DO, BOOL, 12, 1), Channel("GPIO25_AO", 25, AO, FLOAT32, 13, 4),
    Channel("GPIO26_AO", 26, AO, FLOAT32, 17, 4)]

  const ACTUATION_SIZE := 21

  datatype Mapping = Mapping(
    channel: string, kind: nat, scale: Number, shift: Number, valueReference: Word32, fmuIndex: Word16, isInput: bool)

  // ---- Channels ----

  predicate IsRow(c: Channel, size: nat) {
    c.function_ <= PWM && 0 < WireWidth(c.wire) == c.width && c.offset + c.width <= size
  }

  predicate Precedes(c: Channel, d: Channel) { c.offset + c.width <= d.offset && c.gpio < d.gpio }

  /** The channels lie one after another, each on a pin of its own, and end where the payload ends. */
  ghost predicate IsTable(table: seq<Channel>, size: nat) {
    && |table| <= MAX_FIELDS && 0 < size <= MAX_PAYLOAD
    && (forall i :: 0 <= i < |table| ==> IsRow(table[i], size))
    && (forall i :: 0 < i < |table| ==> Precedes(table[i - 1], table[i]))
  }

  lemma AcquisitionIsTable()
    ensures IsTable(ACQUISITION, ACQUISITION_SIZE)
  {
  }

  lemma ActuationIsTable()
    ensures IsTable(ACTUATION, ACTUATION_SIZE)
  {
  }

  function Digit(n: nat): char
    requires n < 10
  {
    ['0', '1', '2', '3', '4', '5', '6', '7', '8', '9'][n]
  }

  /** A pin number below a hundred in decimal, without leading zeros. */
  function Decimal(pin: nat): string
    requires pin < 100
  {
    if pin < 10 then [Digit(pin)] else [Digit(pin / 10), Digit(pin % 10)]
  }

  function Suffix(function_: nat): string {
    if function_ == AI then "AI" else if function_ == DI then "DI" else if function_ == AO then "AO"
    else if function_ == DO then "DO" else "PWM"
  }

  /** A channel is called after its pin and what it does. */
  predicate IsNamed(c: Channel) {
    c.gpio < 100 && c.name == "GPIO" + Decimal(c.gpio) + "_" + Suffix(c.function_)
  }

  lemma NamedByDigits(c: Channel, digits: string)
    requires c.gpio < 100 && digits == Decimal(c.gpio) && c.name == "GPIO" + digits + "_" + Suffix(c.function_)
    ensures IsNamed(c)
  {
  }

  lemma AcquisitionIsNamed(i: nat)
    requires i < |ACQUISITION|
    ensures IsNamed(ACQUISITION[i]) && IsInput(ACQUISITION[i].function_)
  {
    hide IsNamed;
    var digits := ["4", "13", "14", "27", "32", "33", "34", "35", "36", "39"][i];
    NamedByDigits(ACQUISITION[i], digits);
  }

  lemma ActuationIsNamed(i: nat)
    requires i < |ACTUATION|
    ensures IsNamed(ACTUATION[i]) && !IsInput(ACTUATION[i].function_)
  {
    hide IsNamed;
    var digits := ["16", "17", "18", "19", "21", "22", "23", "25", "26"][i];
    NamedByDigits(ACTUATION[i], digits);
  }

  lemma {:induction false} ChannelsApart(table: seq<Channel>, size: nat, i: nat, j: nat)
    requires IsTable(table, size) && i < j < |table|
    ensures table[i].offset + table[i].width <= table[j].offset && table[i].gpio < table[j].gpio
    decreases j
  {
    if i < j - 1 {
      ChannelsApart(table, size, i, j - 1);
    }
  }

  function Find(table: seq<Channel>, name: string): (i: nat)
    ensures i <= |table| && (i < |table| ==> table[i].name == name)
    ensures i == |table| ==> forall j :: 0 <= j < |table| ==> table[j].name != name
  {
    if table == [] then 0 else if table[0].name == name then 0 else 1 + Find(table[1..], name)
  }

  predicate Known(table: seq<Channel>, m: Mapping) { Find(table, m.channel) < |table| }

  function FieldOf(c: Channel, m: Mapping): Field {
    Field(c.gpio, c.function_, c.wire, m.kind, c.offset, c.width, m.scale, m.shift, m.valueReference, m.fmuIndex)
  }

  function ToField(table: seq<Channel>, m: Mapping): Field
    requires Known(table, m)
  {
    FieldOf(table[Find(table, m.channel)], m)
  }

  method BuildField(table: seq<Channel>, m: Mapping) returns (f: Option<Field>)
    ensures f == if Known(table, m) then Some(ToField(table, m)) else None
  {
    for index := 0 to |table|
      invariant forall j :: 0 <= j < index ==> table[j].name != m.channel
      invariant Find(table, m.channel) == index + Find(table[index..], m.channel)
    {
      if m.channel == table[index].name {
        return Some(FieldOf(table[index], m));
      }
      assert table[index..][1..] == table[index + 1..];
    }
    f := None;
  }

  // ---- Sorting ----

  ghost predicate Sorted(fields: seq<Field>) {
    forall i, j :: 0 <= i < j < |fields| ==> fields[i].offset <= fields[j].offset
  }

  /** Sorts the first `count` fields by offset, in place. */
  method SortFieldsByOffset(fields: array<Field>, count: nat)
    requires count <= fields.Length
    modifies fields
    ensures Sorted(fields[..count])
    ensures multiset(fields[..count]) == multiset(old(fields[..count]))
    ensures fields[count..] == old(fields[count..])
  {
    hide Sorted, Moved;
    ShortIsSorted(fields[..if count == 0 then 0 else 1]);
    ShortIsSorted(fields[..count]);
    var index := 1;
    while index < count
      invariant 1 <= index && (index <= count ==> Sorted(fields[..index])) && (index > count ==> count == 0)
      invariant multiset(fields[..count]) == multiset(old(fields[..count]))
      invariant fields[count..] == old(fields[count..])
    {
      ghost var before := fields[..];
      ghost var target := Insert(fields, index);
      InsertKeeps(before, fields[..], target, index, count);
      index := index + 1;
    }
  }

  lemma ShortIsSorted(fields: seq<Field>)
    ensures |fields| <= 1 ==> Sorted(fields)
  {
  }

  /** One turn of the sort: one more field in order, the same fields, and nothing past `count` touched. */
  lemma InsertKeeps(before: seq<Field>, after: seq<Field>, target: nat, index: nat, count: nat)
    requires Moved(before, after, target, index) && index < count <= |before|
    requires Sorted(before[..index])
    requires target > 0 ==> before[target - 1].offset <= before[index].offset
    requires forall i :: target <= i < index ==> before[i].offset > before[index].offset
    ensures Sorted(after[..index + 1])
    ensures multiset(after[..count]) == multiset(before[..count]) && after[count..] == before[count..]
  {
    MovedPermutes(before[..count], after[..count], target, index);
    assert before[..index + 1][..index] == before[..index];
    MovedIsSorted(before[..index + 1], after[..index + 1], target, index);
  }

  /** `after` is `before` with element `index` moved down to `target`. */
  ghost predicate Moved<T>(before: seq<T>, after: seq<T>, target: nat, index: nat) {
    && target <= index < |before| == |after|
    && (forall i :: 0 <= i < target || index < i < |before| ==> after[i] == before[i])
    && after[target] == before[index]
    && (forall i :: target < i <= index ==> after[i] == before[i - 1])
  }

  /** Moves field `index` down past every field with a larger offset. */
  method Insert(fields: array<Field>, index: nat) returns (ghost destination: nat)
    requires index < fields.Length
    modifies fields
    ensures Moved(old(fields[..]), fields[..], destination, index)
    ensures destination > 0 ==> old(fields[destination - 1].offset) <= old(fields[index].offset)
    ensures forall i :: destination <= i < index ==> old(fields[i].offset) > old(fields[index].offset)
  {
    var current := fields[index];
    var target := index;
    while target > 0 && fields[target - 1].offset > current.offset
      invariant 0 <= target <= index
      invariant forall i :: 0 <= i < target || index < i < fields.Length ==> fields[i] == old(fields[i])
      invariant forall i :: target < i <= index ==> fields[i] == old(fields[i - 1])
      invariant forall i :: target <= i < index ==> old(fields[i].offset) > current.offset
    {
      fields[target] := fields[target - 1];
      target := target - 1;
    }
    fields[target] := current;
    destination := target;
  }

  lemma MovedPermutes<T>(before: seq<T>, after: seq<T>, target: nat, index: nat)
    requires Moved(before, after, target, index)
    ensures multiset(after) == multiset(before)
  {
    MovedParts(before, after, target, index);
    hide Moved;
  }

  lemma MovedParts<T>(before: seq<T>, after: seq<T>, target: nat, index: nat)
    requires Moved(before, after, target, index)
    ensures before == before[..target] + before[target..index] + [before[index]] + before[index + 1..]
    ensures after == before[..target] + [before[index]] + before[target..index] + before[index + 1..]
  {
  }

  lemma MovedIsSorted(before: seq<Field>, after: seq<Field>, target: nat, index: nat)
    requires Moved(before, after, target, index) && |before| == index + 1
    requires Sorted(before[..index])
    requires target > 0 ==> before[target - 1].offset <= before[index].offset
    requires forall i :: target <= i < index ==> before[i].offset > before[index].offset
    ensures Sorted(after)
  {
    var low := before[..index];
    forall i, j | 0 <= i < j < |after|
      ensures after[i].offset <= after[j].offset
    {
      assert i < target - 1 ==> low[i].offset <= low[target - 1].offset;
      assert i < target ==> after[i] == low[i];
      assert target < j ==> after[j] == low[j - 1];
    }
  }

  // ---- Distinct keys ----

  ghost predicate Distinct<T(!new), K(!new)>(s: seq<T>, key: T -> K) {
    forall i, j :: 0 <= i < j < |s| ==> key(s[i]) != key(s[j])
  }

  ghost function Keys<T, K>(s: seq<T>, key: T -> K): (r: set<K>)
    ensures forall i :: 0 <= i < |s| ==> key(s[i]) in r
    ensures forall k :: k in r ==> exists i :: 0 <= i < |s| && key(s[i]) == k
  {
    if s == [] then {} else Keys(s[..|s| - 1], key) + {key(s[|s| - 1])}
  }

  lemma DistinctMore<T(!new), K(!new)>(s: seq<T>, key: T -> K, x: T)
    ensures Distinct(s + [x], key) <==> Distinct(s, key) && key(x) !in Keys(s, key)
  {
    var all := s + [x];
    if Distinct(all, key) {
      forall i, j | 0 <= i < j < |s|
        ensures key(s[i]) != key(s[j])
      {
        assert all[i] == s[i] && all[j] == s[j];
      }
      forall i | 0 <= i < |s|
        ensures key(s[i]) != key(x)
      {
        assert all[i] == s[i] && all[|s|] == x;
      }
    }
  }

  lemma {:induction false} DistinctIsCount<T(!new), K(!new)>(s: seq<T>, key: T -> K)
    ensures |Keys(s, key)| <= |s|
    ensures Distinct(s, key) <==> |Keys(s, key)| == |s|
  {
    hide Distinct;
    if s == [] {
      EmptyIsDistinct(key);
    } else {
      var front, x := s[..|s| - 1], s[|s| - 1];
      assert s == front + [x];
      DistinctIsCount(front, key);
      DistinctMore(front, key, x);
    }
  }

  lemma EmptyIsDistinct<T(!new), K(!new)>(key: T -> K)
    ensures Distinct([], key)
  {
  }

  /** Distinctness does not depend on the order. */
  lemma DistinctPermutes<T(!new), K(!new)>(a: seq<T>, b: seq<T>, key: T -> K)
    requires multiset(a) == multiset(b)
    ensures Distinct(a, key) <==> Distinct(b, key)
  {
    SameElements(a, b);
    SameElements(b, a);
    DistinctIsCount(a, key);
    DistinctIsCount(b, key);
    assert Keys(a, key) == Keys(b, key);
  }

  lemma SameElements<T>(a: seq<T>, b: seq<T>)
    requires multiset(a) == multiset(b)
    ensures |a| == |b|
    ensures forall i :: 0 <= i < |a| ==> a[i] in b
  {
    assert |multiset(a)| == |a| && |multiset(b)| == |b|;
    forall i | 0 <= i < |a|
      ensures a[i] in b
    {
      assert a[i] in multiset(b);
    }
  }

  // ---- What a profile maps to ----

  function ChannelOf(m: Mapping): string { m.channel }

  function VariableOf(m: Mapping): Word16 { m.fmuIndex }

  function Pin(f: Field): Byte { f.gpio }

  function Variable(f: Field): Word16 { f.fmuIndex }

  function Selected(mappings: seq<Mapping>, isInput: bool): (r: seq<Mapping>)
    ensures forall m :: m in r <==> m in mappings && m.isInput == isInput
  {
    if mappings == [] then []
    else
      var rest := Selected(mappings[..|mappings| - 1], isInput);
      var last := mappings[|mappings| - 1];
      if last.isInput == isInput then rest + [last] else rest
  }

  ghost predicate AllKnown(table: seq<Channel>, ms: seq<Mapping>) {
    forall i :: 0 <= i < |ms| ==> Known(table, ms[i])
  }

  function Fields(table: seq<Channel>, ms: seq<Mapping>): (fields: seq<Field>)
    requires AllKnown(table, ms)
    ensures |fields| == |ms| && forall i :: 0 <= i < |ms| ==> fields[i] == ToField(table, ms[i])
  {
    seq(|ms|, i requires 0 <= i < |ms| => ToField(table, ms[i]))
  }

  /** Mappings that make a schema: known channels of fitting type and scale, no channel and no FMU variable mapped twice. */
  ghost predicate Acceptable(table: seq<Channel>, ms: seq<Mapping>) {
    && (forall i :: 0 <= i < |ms| ==> Known(table, ms[i]) && IsSound(ToField(table, ms[i])))
    && Distinct(ms, ChannelOf) && Distinct(ms, VariableOf)
  }

  /** The schema is built exactly for acceptable mappings, and has their fields and no other, in canonical order. */
  ghost predicate BuildsTo(table: seq<Channel>, size: nat, ms: seq<Mapping>, schema: Option<Schema>) {
    && (schema.Some? <==> Acceptable(table, ms))
    && (schema.Some? ==>
          && schema.value.payloadSize == size && Canonical(schema.value.fields, size)
          && AllKnown(table, ms) && multiset(schema.value.fields) == multiset(Fields(table, ms)))
  }

  lemma AcceptablePermutes(table: seq<Channel>, a: seq<Mapping>, b: seq<Mapping>)
    requires multiset(a) == multiset(b) && Acceptable(table, a)
    ensures Acceptable(table, b)
  {
    hide Known, ToField, IsSound;
    DistinctPermutes(a, b, ChannelOf);
    DistinctPermutes(a, b, VariableOf);
    SameElements(b, a);
  }

  lemma {:induction false} SelectedPermutes(a: seq<Mapping>, b: seq<Mapping>, isInput: bool)
    requires multiset(a) == multiset(b)
    ensures multiset(Selected(a, isInput)) == multiset(Selected(b, isInput))
  {
    forall m
      ensures multiset(Selected(a, isInput))[m] == multiset(Selected(b, isInput))[m]
    {
      SelectedCounts(a, isInput, m);
      SelectedCounts(b, isInput, m);
    }
  }

  lemma {:induction false} SelectedCounts(a: seq<Mapping>, isInput: bool, m: Mapping)
    ensures multiset(Selected(a, isInput))[m] == if m.isInput == isInput then multiset(a)[m] else 0
  {
    if a != [] {
      var n := |a| - 1;
      SelectedCounts(a[..n], isInput, m);
      assert a == a[..n] + [a[n]];
    }
  }

  /** `f` is mapping `m` on channel `c`: the channel's pin, function and place, the mapping's type, scale, shift and variable. */
  predicate Carries(f: Field, c: Channel, m: Mapping) {
    && m.channel == c.name
    && f.gpio == c.gpio && f.function_ == c.function_ && f.wire == c.wire && f.offset == c.offset && f.width == c.width
    && f.kind == m.kind && f.scale == m.scale && f.shift == m.shift
    && f.valueReference == m.valueReference && f.fmuIndex == m.fmuIndex
  }

  /** In a schema that was built, every mapping has a field that carries it, and every field a mapping. */
  lemma BuiltCarriesMappings(table: seq<Channel>, size: nat, ms: seq<Mapping>, schema: Schema)
    requires BuildsTo(table, size, ms, Some(schema))
    ensures |schema.fields| == |ms|
    ensures forall m :: m in ms ==> exists f, c :: f in schema.fields && c in table && Carries(f, c, m)
    ensures forall f :: f in schema.fields ==> exists m, c :: m in ms && c in table && Carries(f, c, m)
  {
    var fields := Fields(table, ms);
    SameElements(schema.fields, fields);
    SameElements(fields, schema.fields);
    hide Acceptable, Canonical;
    forall m | m in ms
      ensures exists f, c :: f in schema.fields && c in table && Carries(f, c, m)
    {
      var i :| 0 <= i < |ms| && ms[i] == m;
      assert fields[i] in schema.fields && Carries(fields[i], table[Find(table, m.channel)], m);
    }
    forall f | f in schema.fields
      ensures exists m, c :: m in ms && c in table && Carries(f, c, m)
    {
      var i :| 0 <= i < |fields| && fields[i] == f;
      assert ms[i] in ms && Carries(f, table[Find(table, ms[i].channel)], ms[i]);
    }
  }

  // ---- The order of the mappings does not matter ----

  /** The fields of a canonical layout have only one order. */
  lemma {:induction false} CanonicalOrderIsUnique(a: seq<Field>, b: seq<Field>, size: nat)
    requires Canonical(a, size) && Canonical(b, size) && multiset(a) == multiset(b)
    ensures a == b
  {
    StrictlySorted(a, size);
    StrictlySorted(b, size);
    hide Canonical;
    SortedOrderIsUnique(a, b);
  }

  ghost predicate Strict(fields: seq<Field>) {
    forall i, j :: 0 <= i < j < |fields| ==> fields[i].offset < fields[j].offset
  }

  lemma StrictlySorted(a: seq<Field>, size: nat)
    requires Canonical(a, size)
    ensures Strict(a)
  {
  }

  /** Taking one element out of each of two permutations. */
  lemma TakeOut<T>(a: seq<T>, low: seq<T>, high: seq<T>, x: T)
    requires multiset(a + [x]) == multiset(low + [x] + high)
    ensures multiset(a) == multiset(low + high)
  {
    assert multiset(low + [x] + high) == multiset(low + high) + multiset{x};
    assert multiset(a) == multiset(a + [x]) - multiset{x};
  }

  lemma LastIsSame(a: seq<Field>, b: seq<Field>)
    requires Strict(a) && Strict(b) && multiset(a) == multiset(b) && a != []
    ensures |a| == |b| && a[|a| - 1] == b[|a| - 1]
  {
    SameElements(a, b);
    SameElements(b, a);
    var n := |a| - 1;
    var i :| 0 <= i < |b| && b[i] == a[n];
    var j :| 0 <= j < |a| && a[j] == b[n];
  }

  lemma StrictFront(a: seq<Field>, n: nat)
    requires Strict(a) && n <= |a|
    ensures Strict(a[..n])
  {
  }

  lemma {:induction false} SortedOrderIsUnique(a: seq<Field>, b: seq<Field>)
    requires Strict(a) && Strict(b) && multiset(a) == multiset(b)
    ensures a == b
    decreases |a|
  {
    hide Strict;
    if a != [] {
      LastIsSame(a, b);
      var n, x := |a| - 1, a[|a| - 1];
      var low, high := a[..n], b[..n];
      assert a == low + [x] && b == high + [x] + [];
      TakeOut(low, high, [], x);
      assert high + [] == high;
      StrictFront(a, n);
      StrictFront(b, n);
      SortedOrderIsUnique(low, high);
    } else {
      SameElements(a, b);
    }
  }

  lemma FieldsSplit(table: seq<Channel>, low: seq<Mapping>, high: seq<Mapping>)
    requires AllKnown(table, low) && AllKnown(table, high)
    ensures AllKnown(table, low + high) && Fields(table, low + high) == Fields(table, low) + Fields(table, high)
  {
    hide Known, ToField;
  }

  lemma KnownParts(table: seq<Channel>, low: seq<Mapping>, high: seq<Mapping>)
    requires AllKnown(table, low + high)
    ensures AllKnown(table, low) && AllKnown(table, high)
  {
    hide Known;
    assert forall i :: 0 <= i < |low| ==> (low + high)[i] == low[i];
    assert forall i :: 0 <= i < |high| ==> (low + high)[|low| + i] == high[i];
  }

  lemma {:induction false} FieldsPermute(table: seq<Channel>, a: seq<Mapping>, b: seq<Mapping>)
    requires multiset(a) == multiset(b) && AllKnown(table, a) && AllKnown(table, b)
    ensures multiset(Fields(table, a)) == multiset(Fields(table, b))
    decreases |a|
  {
    hide AllKnown, Fields;
    SameElements(a, b);
    if a != [] {
      var front, x := a[..|a| - 1], a[|a| - 1];
      var j :| 0 <= j < |b| && b[j] == x;
      var low, high := b[..j], b[j + 1..];
      assert a == front + [x] && b == low + [x] + high;
      TakeOut(front, low, high, x);
      KnownParts(table, front, [x]);
      KnownParts(table, low + [x], high);
      KnownParts(table, low, [x]);
      FieldsSplit(table, front, [x]);
      FieldsSplit(table, low, [x]);
      FieldsSplit(table, low + [x], high);
      FieldsSplit(table, low, high);
      FieldsPermute(table, front, low + high);
    }
  }

  /** Two profiles with the same mappings in whatever order build the same schema, or both build none. */
  lemma OrderDoesNotMatter(table: seq<Channel>, size: nat, a: seq<Mapping>, b: seq<Mapping>, isInput: bool, r: Option<Schema>, r': Option<Schema>)
    requires multiset(a) == multiset(b)
    requires BuildsTo(table, size, Selected(a, isInput), r) && BuildsTo(table, size, Selected(b, isInput), r')
    ensures r == r'
  {
    hide Acceptable, AllKnown, Canonical, Fields;
    SelectedPermutes(a, b, isInput);
    var ms, ms' := Selected(a, isInput), Selected(b, isInput);
    if r.Some? {
      AcceptablePermutes(table, ms, ms');
      FieldsPermute(table, ms, ms');
      CanonicalOrderIsUnique(r.value.fields, r'.value.fields, size);
    } else if r'.Some? {
      AcceptablePermutes(table, ms', ms);
    }
  }

  // ---- Canonical exactly when acceptable ----

  lemma {:induction false} Pigeonhole(keys: set<nat>, n: nat)
    requires forall k :: k in keys ==> k < n
    ensures |keys| <= n
  {
    if n > 0 {
      Pigeonhole(keys - {n - 1}, n - 1);
    } else {
      assert keys == {};
    }
  }

  /** Acceptable mappings never outnumber the channels. */
  lemma AcceptableFits(table: seq<Channel>, ms: seq<Mapping>)
    requires Acceptable(table, ms)
    ensures |ms| <= |table|
  {
    var row := (m: Mapping) => Find(table, m.channel);
    assert forall i :: 0 <= i < |ms| ==> ms[i].channel == table[row(ms[i])].name;
    DistinctIsCount(ms, row);
    Pigeonhole(Keys(ms, row), |table|);
  }

  lemma {:induction false} SelectedPrefix(mappings: seq<Mapping>, k: nat, isInput: bool)
    requires k <= |mappings|
    ensures Selected(mappings[..k], isInput) <= Selected(mappings, isInput)
    decreases |mappings|
  {
    if k < |mappings| {
      var front := mappings[..|mappings| - 1];
      SelectedPrefix(front, k, isInput);
      assert front[..k] == mappings[..k];
    } else {
      assert mappings[..k] == mappings;
    }
  }

  lemma KnownFieldIsRow(table: seq<Channel>, ms: seq<Mapping>, f: Field) returns (k: nat)
    requires AllKnown(table, ms) && f in Fields(table, ms)
    ensures k < |table| && f.gpio == table[k].gpio && f.offset == table[k].offset && f.width == table[k].width
  {
    var i :| 0 <= i < |ms| && Fields(table, ms)[i] == f;
    k := Find(table, ms[i].channel);
  }

  /** Sorted fields of a table's channels, on pins of their own, lie one after another. */
  lemma SortedIsDisjoint(table: seq<Channel>, size: nat, ms: seq<Mapping>, sorted: seq<Field>)
    requires IsTable(table, size) && AllKnown(table, ms) && Sorted(sorted) && multiset(sorted) == multiset(Fields(table, ms))
    requires Distinct(sorted, Pin)
    ensures Disjoint(sorted)
  {
    hide Fields, Known, AllKnown;
    SameElements(sorted, Fields(table, ms));
    forall i, j | 0 <= i < j < |sorted|
      ensures sorted[i].offset + sorted[i].width <= sorted[j].offset
    {
      var k := KnownFieldIsRow(table, ms, sorted[i]);
      var l := KnownFieldIsRow(table, ms, sorted[j]);
      if k < l {
        ChannelsApart(table, size, k, l);
      } else if l < k {
        ChannelsApart(table, size, l, k);
      }
    }
  }

  lemma ChannelsAndPins(table: seq<Channel>, size: nat, ms: seq<Mapping>)
    requires IsTable(table, size) && AllKnown(table, ms)
    ensures Distinct(ms, ChannelOf) <==> Distinct(Fields(table, ms), Pin)
    ensures Distinct(ms, VariableOf) <==> Distinct(Fields(table, ms), Variable)
  {
    var fields := Fields(table, ms);
    forall i, j | 0 <= i < j < |ms|
      ensures ms[i].channel == ms[j].channel <==> fields[i].gpio == fields[j].gpio
    {
      var k, l := Find(table, ms[i].channel), Find(table, ms[j].channel);
      if k < l {
        ChannelsApart(table, size, k, l);
      } else if l < k {
        ChannelsApart(table, size, l, k);
      }
    }
  }

  lemma CanonicalIffAcceptable(table: seq<Channel>, size: nat, ms: seq<Mapping>, sorted: seq<Field>)
    requires IsTable(table, size) && AllKnown(table, ms) && |ms| <= |table|
    requires Sorted(sorted) && multiset(sorted) == multiset(Fields(table, ms))
    ensures Canonical(sorted, size) <==> Acceptable(table, ms)
  {
    var fields := Fields(table, ms);
    SameElements(sorted, fields);
    SameElements(fields, sorted);
    ChannelsAndPins(table, size, ms);
    DistinctPermutes(sorted, fields, Pin);
    DistinctPermutes(sorted, fields, Variable);
    if Distinct(sorted, Pin) {
      SortedIsDisjoint(table, size, ms, sorted);
    }
    forall i | 0 <= i < |sorted|
      ensures sorted[i].offset + sorted[i].width <= size
    {
      var k := KnownFieldIsRow(table, ms, sorted[i]);
      assert IsRow(table[k], size);
    }
    hide IsSound, Known, ToField, IsTable, Sorted, Disjoint, Distinct;
    UniqueIsDistinct(sorted);
  }

  lemma UniqueIsDistinct(fields: seq<Field>)
    ensures Unique(fields) <==> Distinct(fields, Pin) && Distinct(fields, Variable)
  {
  }

  // ---- The builder ----

  /** The fields of the selected mappings at the start of `fields`; none if one has no channel or there are too many. */
  method CollectFields(table: seq<Channel>, mappings: seq<Mapping>, isInput: bool, fields: array<Field>) returns (count: Option<nat>)
    requires fields.Length == |table|
    modifies fields
    ensures count.None? ==> !Acceptable(table, Selected(mappings, isInput))
    ensures count.Some? ==> count.value <= |table| && IsBuilt(table, Selected(mappings, isInput), fields[..count.value])
  {
    hide Acceptable, IsBuilt, Selected, Known, ToField;
    NothingSelected(table, isInput);
    var n := 0;
    for index := 0 to |mappings|
      invariant n <= |table|
      invariant IsBuilt(table, Selected(mappings[..index], isInput), fields[..n])
    {
      var m := mappings[index];
      SelectedNext(mappings, index, isInput);
      if m.isInput == isInput {
        ghost var taken := Selected(mappings[..index], isInput);
        BuiltNext(table, taken, fields[..n], m);
        if n == |table| {
          NotAcceptable(table, taken + [m], Selected(mappings, isInput));
          return None;
        }
        var field := BuildField(table, m);
        if field == None {
          NotAcceptable(table, taken + [m], Selected(mappings, isInput));
          return None;
        }
        fields[n] := field.value;
        n := n + 1;
        assert fields[..n] == fields[..n - 1] + [field.value];
      }
    }
    assert mappings[..|mappings|] == mappings;
    count := Some(n);
  }

  lemma NothingSelected(table: seq<Channel>, isInput: bool)
    ensures IsBuilt(table, Selected([], isInput), [])
  {
  }

  lemma SelectedNext(mappings: seq<Mapping>, k: nat, isInput: bool)
    requires k < |mappings|
    ensures Selected(mappings[..k + 1], isInput) ==
      if mappings[k].isInput == isInput then Selected(mappings[..k], isInput) + [mappings[k]] else Selected(mappings[..k], isInput)
    ensures Selected(mappings[..k + 1], isInput) <= Selected(mappings, isInput)
  {
    assert mappings[..k + 1][..k] == mappings[..k];
    SelectedPrefix(mappings, k + 1, isInput);
  }

  lemma BuiltNext(table: seq<Channel>, ms: seq<Mapping>, fields: seq<Field>, m: Mapping)
    requires IsBuilt(table, ms, fields)
    ensures |fields| == |ms|
    ensures Known(table, m) ==> IsBuilt(table, ms + [m], fields + [ToField(table, m)])
  {
    hide Known, ToField;
  }

  method BuildSchema(table: seq<Channel>, size: nat, mappings: seq<Mapping>, isInput: bool) returns (schema: Option<Schema>)
    requires IsTable(table, size)
    ensures BuildsTo(table, size, Selected(mappings, isInput), schema)
  {
    hide Acceptable, Known, Canonical, Sorted, Selected;
    var fields := new Field[|table|];
    var count := CollectFields(table, mappings, isInput, fields);
    if count == None {
      return None;
    }
    SortFieldsByOffset(fields, count.value);
    CanonicalIffAcceptable(table, size, Selected(mappings, isInput), fields[..count.value]);
    var status, built := Build(fields[..count.value], size);
    schema := if status.Ok? then Some(built) else None;
  }

  ghost predicate IsBuilt(table: seq<Channel>, ms: seq<Mapping>, fields: seq<Field>) {
    AllKnown(table, ms) && fields == Fields(table, ms)
  }

  lemma NotAcceptable(table: seq<Channel>, part: seq<Mapping>, ms: seq<Mapping>)
    requires part <= ms && part != []
    requires |part| > |table| || !Known(table, part[|part| - 1])
    ensures !Acceptable(table, ms)
  {
    if Acceptable(table, ms) {
      AcceptableFits(table, ms);
    }
  }

  // ---- The two schemas of a configuration ----

  datatype Status = Built | InvalidArgument | Unbuildable

  method BuildAcquisitionSchema(profileId: nat, mappings: seq<Mapping>) returns (status: Status, schema: Option<Schema>)
    ensures status == InvalidArgument <==> profileId != 1
    ensures status == Built <==> schema.Some?
    ensures profileId == 1 ==> BuildsTo(ACQUISITION, ACQUISITION_SIZE, Selected(mappings, true), schema)
  {
    if profileId != 1 {
      return InvalidArgument, None;
    }
    AcquisitionIsTable();
    schema := BuildSchema(ACQUISITION, ACQUISITION_SIZE, mappings, true);
    status := if schema.Some? then Built else Unbuildable;
  }

  method BuildActuationSchema(profileId: nat, mappings: seq<Mapping>) returns (status: Status, schema: Option<Schema>)
    ensures status == InvalidArgument <==> profileId != 1
    ensures status == Built <==> schema.Some?
    ensures profileId == 1 ==> BuildsTo(ACTUATION, ACTUATION_SIZE, Selected(mappings, false), schema)
  {
    if profileId != 1 {
      return InvalidArgument, None;
    }
    ActuationIsTable();
    schema := BuildSchema(ACTUATION, ACTUATION_SIZE, mappings, false);
    status := if schema.Some? then Built else Unbuildable;
  }
}
