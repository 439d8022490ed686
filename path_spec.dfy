/**
 * What `setNestedValue` (template.js) does to the event tree, as functions on
 * values. A dot path is split into segments and walked from the root: every
 * segment but the last moves a cursor one level down, creating or replacing
 * the child so that it is a list when the next segment asks for one and a map
 * otherwise; the last segment stores the value. The special segments are
 * `++` and `+0` (append or prepend), `-1` (the last element of a list) and
 * `*` (apply the rest of the path to every element of a list).
 *
 * Arrays are observed as JSON sees them: a key that is not the canonical
 * decimal form of an index names a property of the array object that
 * serialisation drops, so writes through such a key leave the observed tree
 * unchanged, and writing past the end leaves holes (`Undefined`) before the
 * new element.
 */
module PathSpec {
  import opened Wrappers
  import opened Strings
  import opened Numbers
  import opened Values

  // ---------------------------------------------------------------------------
  // Segments
  // ---------------------------------------------------------------------------

  /** `isIntegerString(str)`: a non-empty string that `makeNumber` reads as a
      non-negative whole number. */
  predicate IsIntegerString(str: string) {
    str != "" &&
    match ParseNumber(str)
    case None => false
    case Some(d) => d.scale == 0 && d.mantissa >= 0
  }

  /** Every array index key is an integer string (the converse fails: " 1", "01", "+1"). */
  lemma IndexKeyIsInteger(key: string)
    requires ArrayIndex(key).Some?
    ensures IsIntegerString(key)
  {
    var n := ArrayIndex(key).value;
    DigitsRoundTrip(n);
    DigitsNumber(key);
  }

  /** A non-empty digit string is an integer string: "0", "7", "007". */
  lemma DigitsAreInteger(s: string)
    requires |s| >= 1 && AllDigits(s)
    ensures IsIntegerString(s)
  {
    DigitsNumber(s);
  }

  /** An integer string is exactly a non-empty string that `makeNumber`
      turns into a whole number that is not negative. */
  lemma IntegerStringValue(s: string)
    ensures IsIntegerString(s) <==> s != "" && exists n: nat :: MakeNumber(s) == Num(Decimal(n, 0))
  {
    if IsIntegerString(s) {
      var n: nat := ParseNumber(s).value.mantissa;
      assert MakeNumber(s) == Num(Decimal(n, 0));
    }
  }

  /** Neither the empty string nor a word is an integer string. */
  lemma NoIntegerStrings(c: char)
    requires 'a' <= c <= 'z'
    ensures !IsIntegerString("") && !IsIntegerString([c])
  {
    LetterIsNoNumber(c);
  }

  /** The segments after which `ensureStructure` wants a list rather than a map. */
  predicate NeedsArray(nextKey: string) {
    nextKey == "++" || nextKey == "+0" || nextKey == "-1" || nextKey == "*" || IsIntegerString(nextKey)
  }

  /** A digit segment asks for a list; a one-letter word asks for a map. */
  lemma NextKeyKind(digits: string, letter: char)
    requires |digits| >= 1 && AllDigits(digits) && 'a' <= letter <= 'z'
    ensures NeedsArray(digits)
    ensures !NeedsArray([letter])
  {
    DigitsAreInteger(digits);
    LetterIsNoNumber(letter);
  }

  /** A segment with no special meaning. */
  predicate PlainKey(key: string) {
    key != "*" && key != "++" && key != "+0" && key != "-1"
  }

  // ---------------------------------------------------------------------------
  // Reading and writing one level
  // ---------------------------------------------------------------------------

  /** One step into a container: a map key or a list position. */
  datatype Slot = Field(name: string) | Index(index: nat)

  /** The slot a segment names in `t`, or None when the write would land on a
      property that the observed tree does not show (a non-index key of a
      list, or any key of a scalar). */
  function SlotOf(t: Node, key: string): (r: Option<Slot>)
    ensures t.Obj? ==> r == Some(Field(key))
    ensures t.Arr? ==> (r.Some? <==> ArrayIndex(key).Some?)
    ensures t.Arr? && r.Some? ==> r.value == Index(ArrayIndex(key).value)
    ensures !IsContainer(t) ==> r.None?
  {
    match t
    case Obj(_) => Some(Field(key))
    case Arr(_) =>
      (match ArrayIndex(key)
       case None => None
       case Some(n) => Some(Index(n)))
    case _ => None
  }

  /** The slot is of the container's kind. */
  predicate Fits(t: Node, s: Slot) {
    (t.Obj? && s.Field?) || (t.Arr? && s.Index?)
  }

  /** The slot holds an entry of `t`: a present key or a position below the length. */
  predicate Holds(t: Node, s: Slot) {
    (t.Obj? && s.Field? && s.name in t.fields) || (t.Arr? && s.Index? && s.index < |t.items|)
  }

  predicate SameKind(a: Node, b: Node) {
    a.Obj? == b.Obj? && a.Arr? == b.Arr?
  }

  /** `t[key]`: what is stored there, or `undefined` for a missing key or a hole. */
  function Get(t: Node, s: Slot): Node {
    match t
    case Obj(fields) => if s.Field? && s.name in fields then fields[s.name] else Undefined
    case Arr(items) => if s.Index? && s.index < |items| then items[s.index] else Undefined
    case _ => Undefined
  }

  function Holes(n: nat): (r: seq<Node>)
    ensures |r| == n && forall i :: 0 <= i < n ==> r[i] == Undefined
  {
    seq(n, _ => Undefined)
  }

  /** `t[key] = x`. A list written past its end grows, leaving holes. */
  function Put(t: Node, s: Slot, x: Node): (r: Node)
    ensures SameKind(r, t)
    ensures Fits(t, s) ==> Holds(r, s) && Get(r, s) == x
    ensures forall o :: o != s ==> Get(r, o) == Get(t, o)
    ensures !Fits(t, s) ==> r == t
    ensures t.Obj? && s.Field? ==> r.fields.Keys == t.fields.Keys + {s.name}
    ensures Holds(t, s) && t.Arr? ==> |r.items| == |t.items|
  {
    match t
    case Obj(fields) => if s.Field? then Obj(fields[s.name := x]) else t
    case Arr(items) =>
      if !s.Index? then t
      else if s.index < |items| then Arr(items[s.index := x])
      else Arr(items + Holes(s.index - |items|) + [x])
    case _ => t
  }

  // ---------------------------------------------------------------------------
  // The helpers of setNestedValue
  // ---------------------------------------------------------------------------

  /** `ensureStructure(current, key, nextKey)`: the child at `slot` becomes a
      list when `nextKey` asks for one and a map otherwise. A child of the
      right kind is kept; anything else (a scalar, the other kind, nothing) is
      replaced by a fresh empty container. Nothing else changes. */
  function EnsureStructure(current: Node, slot: Slot, nextKey: string): (r: Node)
    requires Fits(current, slot)
    ensures SameKind(r, current) && Holds(r, slot)
    ensures NeedsArray(nextKey) ==> Get(r, slot).Arr?
    ensures !NeedsArray(nextKey) ==> Get(r, slot).Obj?
    ensures NeedsArray(nextKey) && Get(current, slot).Arr? ==> r == current
    ensures !NeedsArray(nextKey) && Get(current, slot).Obj? ==> r == current
    ensures r != current ==> Get(r, slot) == (if NeedsArray(nextKey) then Arr([]) else Obj(map[]))
    ensures forall o :: o != slot ==> Get(r, o) == Get(current, o)
    ensures Holds(current, slot) && current.Arr? ==> |r.items| == |current.items|
  {
    var currentLevel := Get(current, slot);
    if NeedsArray(nextKey) then
      if currentLevel.Arr? then current else Put(current, slot, Arr([]))
    else
      if currentLevel.Obj? then current else Put(current, slot, Obj(map[]))
  }

  /** `handleDynamicPushInPath(current, key)`: on a list, `++` appends and
      `+0` prepends a fresh empty map; the result is the new list and the
      position of that map. Anything but a list is refused. */
  function DynamicPush(current: Node, key: string): (r: Option<(Node, nat)>)
    requires key == "++" || key == "+0"
    ensures r.None? <==> !current.Arr?
    ensures r.Some? ==> r.value.0.Arr? && Holds(r.value.0, Index(r.value.1))
    ensures r.Some? ==> Get(r.value.0, Index(r.value.1)) == Obj(map[])
    ensures r.Some? && key == "++" ==> r.value.0.items == current.items + [Obj(map[])]
    ensures r.Some? && key == "+0" ==> r.value.0.items == [Obj(map[])] + current.items
  {
    if !current.Arr? then None
    else if key == "++" then Some((Arr(current.items + [Obj(map[])]), |current.items|))
    else Some((Arr([Obj(map[])] + current.items), 0))
  }

  /** `assignFinalValue(current, finalKey, value)`. */
  function AssignFinalValue(current: Node, finalKey: string, value: Node): (r: Node)
    requires IsContainer(current)
    ensures SameKind(r, current)
    // `++` appends and `+0` prepends the value itself, on lists only
    ensures finalKey == "++" && current.Arr? ==> r.items == current.items + [value]
    ensures finalKey == "+0" && current.Arr? ==> r.items == [value] + current.items
    ensures (finalKey == "++" || finalKey == "+0") && current.Obj? ==> r == current
    // `-1` overwrites the last element of a non-empty list and does nothing on an empty one
    ensures finalKey == "-1" && current.Arr? && |current.items| == 0 ==> r == current
    ensures finalKey == "-1" && current.Arr? && |current.items| > 0
            ==> r.items == current.items[|current.items| - 1 := value]
    // any other key is a plain assignment (on a map, `-1` and `*` are ordinary keys)
    ensures current.Obj? && finalKey != "++" && finalKey != "+0" ==> r == Obj(current.fields[finalKey := value])
    ensures current.Arr? && PlainKey(finalKey) && ArrayIndex(finalKey).Some?
            ==> Get(r, Index(ArrayIndex(finalKey).value)) == value
                && forall o :: o != Index(ArrayIndex(finalKey).value) ==> Get(r, o) == Get(current, o)
    ensures current.Arr? && PlainKey(finalKey) && ArrayIndex(finalKey).None? ==> r == current
    // a final `*` is an ordinary key, which a list does not show
    ensures current.Arr? && finalKey == "*" ==> r == current
  {
    if finalKey == "-1" && current.Arr? then
      if |current.items| == 0 then current
      else Put(current, Index(|current.items| - 1), value)
    else if finalKey == "++" || finalKey == "+0" then
      if !current.Arr? then current
      else if finalKey == "++" then Arr(current.items + [value])
      else Arr([value] + current.items)
    else
      match SlotOf(current, finalKey)
      case None => current
      case Some(slot) => Put(current, slot, value)
  }

  // ---------------------------------------------------------------------------
  // The walk
  // ---------------------------------------------------------------------------

  /** `setNestedValue(obj, path, value)`: nothing happens for a falsy root or
      an empty path; otherwise the split path is walked from the root. */
  function Assign(obj: Node, path: string, value: Node): (r: Node)
    requires IsContainer(obj) || !Truthy(obj)
    ensures SameKind(r, obj)
    ensures !Truthy(obj) || path == "" ==> r == obj
    ensures obj.Obj? ==> forall k :: k != Split(path, '.')[0] ==> Get(r, Field(k)) == Get(obj, Field(k))
    ensures obj.Obj? ==> r.fields.Keys <= obj.fields.Keys + {Split(path, '.')[0]}
  {
    if !Truthy(obj) || path == "" then obj
    else Walk(obj, Split(path, '.'), value)
  }

  /** The loop of `setNestedValue` from the cursor `t` on, with the segments
      still to go. On a map only the entry named by the first segment can change. */
  function Walk(t: Node, keys: seq<string>, value: Node): (r: Node)
    requires IsContainer(t) && |keys| >= 1
    ensures SameKind(r, t)
    ensures t.Obj? ==> forall k :: k != keys[0] ==> Get(r, Field(k)) == Get(t, Field(k))
    ensures t.Obj? ==> r.fields.Keys <= t.fields.Keys + {keys[0]}
    decreases |keys|, 2, 0
  {
    if |keys| == 1 then AssignFinalValue(t, keys[0], value)
    else
      var key := keys[0];
      var rest := keys[1..];
      if key == "*" then Wildcard(t, rest, value)
      else if key == "-1" && t.Arr? then
        if |t.items| == 0 then t
        else Descend(t, Index(|t.items| - 1), rest, value)
      else if key == "++" || key == "+0" then
        match DynamicPush(t, key)
        case None => t
        case Some((pushed, at)) => Put(pushed, Index(at), Walk(Obj(map[]), rest, value))
      else
        match SlotOf(t, key)
        case None => t
        case Some(slot) => Descend(t, slot, rest, value)
  }

  /** `ensureStructure`, then the rest of the walk inside the child. */
  function Descend(t: Node, slot: Slot, rest: seq<string>, value: Node): (r: Node)
    requires Fits(t, slot) && |rest| >= 1
    ensures SameKind(r, t) && Holds(r, slot)
    ensures forall o :: o != slot ==> Get(r, o) == Get(t, o)
    ensures t.Obj? ==> r.fields.Keys == t.fields.Keys + {slot.name}
    decreases |rest| + 1, 1, 0
  {
    var prepared := EnsureStructure(t, slot, rest[0]);
    Put(prepared, slot, Walk(Get(prepared, slot), rest, value))
  }

  /** `handleWildcard`: on a list, the rest of the path is applied to every
      element that is a map or a list; anything but a list is left alone. */
  function Wildcard(t: Node, rest: seq<string>, value: Node): (r: Node)
    requires |rest| >= 1
    ensures SameKind(r, t)
    ensures !t.Arr? ==> r == t
    ensures t.Arr? ==> |r.items| == |t.items|
    decreases |rest| + 1, 1, 0
  {
    if !t.Arr? then t
    else Arr(BroadcastAll(t.items, rest, value))
  }

  /** The elements after the rest of the path has been applied to each
      container among them. An empty rest (the path ended in `*.`) is the
      empty path of the inner call, which does nothing. */
  function BroadcastAll(items: seq<Node>, rest: seq<string>, value: Node): (r: seq<Node>)
    requires |rest| >= 1
    ensures |r| == |items|
    ensures forall j :: 0 <= j < |items| && !IsContainer(items[j]) ==> r[j] == items[j]
    ensures rest == [""] ==> r == items
    decreases |rest| + 1, 0, |items|
  {
    if items == [] then []
    else
      var element := items[|items| - 1];
      var updated := if IsContainer(element) && rest != [""] then Walk(element, rest, value) else element;
      BroadcastAll(items[..|items| - 1], rest, value) + [updated]
  }

  // ---------------------------------------------------------------------------
  // Cursors: the position of JavaScript's `current` inside the root
  // ---------------------------------------------------------------------------

  /** The node a cursor points at. */
  function At(t: Node, cursor: seq<Slot>): Node
    decreases |cursor|
  {
    if cursor == [] then t else At(Get(t, cursor[0]), cursor[1..])
  }

  /** `t` with the node at the cursor replaced by `x`: the effect on the root
      of changing the object the cursor points at. */
  function Plug(t: Node, cursor: seq<Slot>, x: Node): Node
    decreases |cursor|
  {
    if cursor == [] then x else Put(t, cursor[0], Plug(Get(t, cursor[0]), cursor[1..], x))
  }

  /** Every step of the cursor names an entry that is there. */
  predicate ValidCursor(t: Node, cursor: seq<Slot>)
    decreases |cursor|
  {
    cursor == [] || (Holds(t, cursor[0]) && ValidCursor(Get(t, cursor[0]), cursor[1..]))
  }

  lemma PutPut(t: Node, s: Slot, x: Node, y: Node)
    ensures Put(Put(t, s, x), s, y) == Put(t, s, y)
  {
    if t.Arr? && s.Index? && s.index >= |t.items| {
      var grown := t.items + Holes(s.index - |t.items|) + [x];
      assert grown[s.index := y] == t.items + Holes(s.index - |t.items|) + [y];
    }
  }

  lemma PutGet(t: Node, s: Slot)
    requires Holds(t, s)
    ensures Put(t, s, Get(t, s)) == t
  {
    if t.Arr? {
      assert t.items[s.index := t.items[s.index]] == t.items;
    }
  }

  lemma {:induction false} AtSnoc(t: Node, cursor: seq<Slot>, s: Slot)
    ensures At(t, cursor + [s]) == Get(At(t, cursor), s)
    decreases |cursor|
  {
    if cursor != [] {
      assert (cursor + [s])[1..] == cursor[1..] + [s];
      AtSnoc(Get(t, cursor[0]), cursor[1..], s);
    }
  }

  lemma {:induction false} PlugSnoc(t: Node, cursor: seq<Slot>, s: Slot, x: Node)
    ensures Plug(t, cursor + [s], x) == Plug(t, cursor, Put(At(t, cursor), s, x))
    decreases |cursor|
  {
    if cursor == [] {
      assert [] + [s] == [s];
    } else {
      assert (cursor + [s])[1..] == cursor[1..] + [s];
      PlugSnoc(Get(t, cursor[0]), cursor[1..], s, x);
    }
  }

  /** Plugging twice at the same cursor keeps only the second node. */
  lemma {:induction false} PlugPlug(t: Node, cursor: seq<Slot>, x: Node, y: Node)
    ensures Plug(Plug(t, cursor, x), cursor, y) == Plug(t, cursor, y)
    decreases |cursor|
  {
    if cursor != [] {
      var s := cursor[0];
      var inner := Plug(Get(t, s), cursor[1..], x);
      var once := Put(t, s, inner);
      assert Plug(t, cursor, x) == once;
      if Fits(t, s) {
        assert Get(once, s) == inner;
        PlugPlug(Get(t, s), cursor[1..], x, y);
        PutPut(t, s, inner, Plug(Get(t, s), cursor[1..], y));
      } else {
        assert once == t;
      }
    }
  }

  lemma {:induction false} AtPlug(t: Node, cursor: seq<Slot>, x: Node)
    requires ValidCursor(t, cursor)
    ensures At(Plug(t, cursor, x), cursor) == x
    decreases |cursor|
  {
    if cursor != [] {
      AtPlug(Get(t, cursor[0]), cursor[1..], x);
    }
  }

  /** Plugging back what the cursor points at changes nothing. */
  lemma {:induction false} PlugAt(t: Node, cursor: seq<Slot>)
    requires ValidCursor(t, cursor)
    ensures Plug(t, cursor, At(t, cursor)) == t
    decreases |cursor|
  {
    if cursor != [] {
      PlugAt(Get(t, cursor[0]), cursor[1..]);
      PutGet(t, cursor[0]);
    }
  }

  lemma {:induction false} ValidPlug(t: Node, cursor: seq<Slot>, x: Node)
    requires ValidCursor(t, cursor)
    ensures ValidCursor(Plug(t, cursor, x), cursor)
    decreases |cursor|
  {
    if cursor != [] {
      ValidPlug(Get(t, cursor[0]), cursor[1..], x);
    }
  }

  lemma {:induction false} ValidSnoc(t: Node, cursor: seq<Slot>, s: Slot)
    requires ValidCursor(t, cursor) && Holds(At(t, cursor), s)
    ensures ValidCursor(t, cursor + [s])
    decreases |cursor|
  {
    if cursor == [] {
      assert [] + [s] == [s];
    } else {
      assert (cursor + [s])[1..] == cursor[1..] + [s];
      ValidSnoc(Get(t, cursor[0]), cursor[1..], s);
    }
  }

  /** One step of the cursor loop: replace the node at the cursor by `prepared`
      and move into its entry `s`. Finishing the walk from there is the same as
      finishing it with `prepared` written back and `inner` in that entry. */
  lemma StepDown(t: Node, cursor: seq<Slot>, prepared: Node, s: Slot, inner: Node)
    requires ValidCursor(t, cursor) && Holds(prepared, s)
    ensures ValidCursor(Plug(t, cursor, prepared), cursor + [s])
    ensures At(Plug(t, cursor, prepared), cursor + [s]) == Get(prepared, s)
    ensures Plug(Plug(t, cursor, prepared), cursor + [s], inner) == Plug(t, cursor, Put(prepared, s, inner))
  {
    var t' := Plug(t, cursor, prepared);
    ValidPlug(t, cursor, prepared);
    AtPlug(t, cursor, prepared);
    ValidSnoc(t', cursor, s);
    AtSnoc(t', cursor, s);
    PlugSnoc(t', cursor, s, inner);
    PlugPlug(t, cursor, prepared, Put(prepared, s, inner));
  }

  // ---------------------------------------------------------------------------
  // Properties of the walk
  // ---------------------------------------------------------------------------

  /** No segment of a split path contains the separator. */
  predicate Undotted(keys: seq<string>) {
    forall k :: 0 <= k < |keys| ==> '.' !in keys[k]
  }

  lemma UndottedSuffix(keys: seq<string>, n: nat)
    requires Undotted(keys) && n <= |keys|
    ensures Undotted(keys[n..])
  {
    forall k | 0 <= k < |keys| - n
      ensures '.' !in keys[n..][k]
    {
      assert keys[n..][k] == keys[n + k];
    }
  }

  /** The wildcard's inner call: the rest of the path joined with dots and
      handed to `setNestedValue` again is the rest of the walk, except that an
      empty joined path does nothing. */
  lemma WildcardReentry(element: Node, rest: seq<string>, value: Node)
    requires IsContainer(element) && |rest| >= 1 && Undotted(rest)
    ensures Assign(element, Join(rest, "."), value) == if rest != [""] then Walk(element, rest, value) else element
  {
    JoinEmpty(rest, '.');
    if rest != [""] {
      SplitJoin(rest, '.');
    }
  }

  /** `*` broadcasts the rest of the path, reassembled as the source does, to
      every element: containers are updated, all other elements stay. */
  lemma WildcardEach(t: Node, rest: seq<string>, value: Node, j: nat)
    requires t.Arr? && |rest| >= 1 && j < |t.items| && Undotted(rest)
    ensures IsContainer(t.items[j]) ==> Wildcard(t, rest, value).items[j] == Assign(t.items[j], Join(rest, "."), value)
    ensures !IsContainer(t.items[j]) ==> Wildcard(t, rest, value).items[j] == t.items[j]
  {
    BroadcastAt(t.items, rest, value, j);
    if IsContainer(t.items[j]) {
      WildcardReentry(t.items[j], rest, value);
    }
  }

  lemma {:induction false} BroadcastAt(items: seq<Node>, rest: seq<string>, value: Node, j: nat)
    requires |rest| >= 1 && j < |items|
    ensures BroadcastAll(items, rest, value)[j]
         == if IsContainer(items[j]) && rest != [""] then Walk(items[j], rest, value) else items[j]
    decreases |items|
  {
    if j < |items| - 1 {
      BroadcastAt(items[..|items| - 1], rest, value, j);
    }
  }

  /** A path whose first segment is not special and whose later segments ask
      for maps: the walk creates or reuses a map at every level. */
  predicate PlainPath(keys: seq<string>) {
    |keys| >= 1 && PlainKey(keys[0]) && forall k :: 1 <= k < |keys| ==> !NeedsArray(keys[k])
  }

  lemma PlainPathTail(keys: seq<string>)
    requires PlainPath(keys) && |keys| > 1
    ensures PlainPath(keys[1..])
  {
    assert !NeedsArray(keys[1]);
    forall k | 1 <= k < |keys| - 1
      ensures !NeedsArray(keys[1..][k])
    {
      assert keys[1..][k] == keys[k + 1];
    }
  }

  /** On a map, a plain non-final segment descends into its own entry. */
  lemma WalkPlainStep(t: Node, keys: seq<string>, value: Node)
    requires t.Obj? && |keys| > 1 && PlainKey(keys[0])
    ensures Walk(t, keys, value) == Descend(t, Field(keys[0]), keys[1..], value)
  {
  }

  /** A path of plain segments into nested maps reads back what was written. */
  lemma {:induction false} WalkLookup(t: Node, keys: seq<string>, value: Node)
    requires t.Obj? && PlainPath(keys)
    ensures Lookup(Walk(t, keys, value), keys) == value
    decreases |keys|
  {
    if |keys| > 1 {
      var slot := Field(keys[0]);
      var rest := keys[1..];
      PlainPathTail(keys);
      assert !NeedsArray(rest[0]);
      var prepared := EnsureStructure(t, slot, rest[0]);
      var child := Get(prepared, slot);
      WalkLookup(child, rest, value);
      WalkPlainStep(t, keys, value);
      var r := Walk(t, keys, value);
      assert Get(r, slot) == Walk(child, rest, value);
    }
  }

  /** Reading a dot path of plain keys from nested maps; `undefined` when it
      leaves the maps. */
  function Lookup(t: Node, keys: seq<string>): Node
    decreases |keys|
  {
    if keys == [] then t
    else if t.Obj? then Lookup(Get(t, Field(keys[0])), keys[1..])
    else Undefined
  }

  /** Setting a dotted path of plain, non-numeric keys on a map and reading it back gives the value. */
  lemma GetAfterSet(obj: Node, path: string, value: Node)
    requires obj.Obj? && path != "" && PlainPath(Split(path, '.'))
    ensures Lookup(Assign(obj, path, value), Split(path, '.')) == value
  {
    WalkLookup(obj, Split(path, '.'), value);
  }

  /** A falsy root or an empty path changes nothing. */
  lemma NoOpGuard(obj: Node, path: string, value: Node)
    requires !Truthy(obj) || (IsContainer(obj) && path == "")
    ensures Assign(obj, path, value) == obj
  {
  }

  /** A non-final `++` or `+0` on anything but a list aborts the walk there. */
  lemma PushOnNonList(t: Node, key: string, rest: seq<string>, value: Node)
    requires t.Obj? && (key == "++" || key == "+0") && |rest| >= 1
    ensures Walk(t, [key] + rest, value) == t
  {
    assert ([key] + rest)[1..] == rest;
  }

  /** A non-final `-1` on an empty list aborts; on a map it is the ordinary key "-1". */
  lemma LastOnEmpty(t: Node, rest: seq<string>, value: Node)
    requires IsContainer(t) && |rest| >= 1
    ensures t == Arr([]) ==> Walk(t, ["-1"] + rest, value) == t
    ensures t.Obj? ==> Walk(t, ["-1"] + rest, value) == Descend(t, Field("-1"), rest, value)
  {
    assert (["-1"] + rest)[0] == "-1" && (["-1"] + rest)[1..] == rest;
  }

  /** A non-final `-1` on a non-empty list continues inside its last element. */
  lemma LastInPath(items: seq<Node>, rest: seq<string>, value: Node)
    requires |items| >= 1 && |rest| >= 1
    ensures Walk(Arr(items), ["-1"] + rest, value) == Descend(Arr(items), Index(|items| - 1), rest, value)
  {
    assert (["-1"] + rest)[0] == "-1" && (["-1"] + rest)[1..] == rest;
  }

  /** An abort does not undo what the walk did before it: `a.-1.b` on a
      missing `a` first creates the empty list, then stops at `-1`. */
  lemma AbortKeepsCreatedList(t: Node, a: string, rest: seq<string>, value: Node)
    requires t.Obj? && a !in t.fields && PlainKey(a) && |rest| >= 1
    ensures Walk(t, [a, "-1"] + rest, value) == Obj(t.fields[a := Arr([])])
  {
    var keys := [a, "-1"] + rest;
    assert keys[0] == a && keys[1..] == ["-1"] + rest;
    var prepared := EnsureStructure(t, Field(a), "-1");
    assert prepared == Obj(t.fields[a := Arr([])]);
    LastOnEmpty(Arr([]), rest, value);
    PutGet(prepared, Field(a));
  }

  /** Two pushes in a row on a list: the first appends a fresh map, the second
      finds a map and aborts, so the map stays empty. */
  lemma AbortKeepsEarlierPush(items: seq<Node>, rest: seq<string>, value: Node)
    requires |rest| >= 1
    ensures Walk(Arr(items), ["++", "++"] + rest, value) == Arr(items + [Obj(map[])])
  {
    var keys := ["++", "++"] + rest;
    assert keys[0] == "++" && keys[1..] == ["++"] + rest;
    PushOnNonList(Obj(map[]), "++", rest, value);
    var pushed := Arr(items + [Obj(map[])]);
    PutGet(pushed, Index(|items|));
  }

  /** A non-final `++` grows the list by one element, the new last one, and
      keeps every element before it; `+0` does the same at the front. */
  lemma PushInPath(items: seq<Node>, key: string, rest: seq<string>, value: Node)
    requires (key == "++" || key == "+0") && |rest| >= 1
    ensures key == "++" ==> Walk(Arr(items), [key] + rest, value) == Arr(items + [Walk(Obj(map[]), rest, value)])
    ensures key == "+0" ==> Walk(Arr(items), [key] + rest, value) == Arr([Walk(Obj(map[]), rest, value)] + items)
  {
    var keys := [key] + rest;
    assert keys[0] == key && keys[1..] == rest;
    var w := Walk(Obj(map[]), rest, value);
    if key == "++" {
      assert (items + [Obj(map[])])[|items| := w] == items + [w];
    } else {
      assert ([Obj(map[])] + items)[0 := w] == [w] + items;
    }
  }
}
