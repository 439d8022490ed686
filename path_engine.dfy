/**
 * `setNestedValue` and `handleWildcard` (template.js) as the loops they are.
 * JavaScript keeps a reference `current` into the root object and mutates
 * through it; here the root is a value `tree`, `cursor` is the sequence of
 * slots from the root down to `current`, and a change to `current` is written
 * back into `tree` with `Plug`. Each method is proved to compute the walk of
 * the path specification.
 */
module PathEngine {
  import opened Wrappers
  import opened Strings
  import opened Values
  import opened PathSpec

  /** `setNestedValue(obj, path, value)`: the updated root. */
  method SetNestedValue(obj: Node, path: string, value: Node) returns (r: Node)
    requires IsContainer(obj) || !Truthy(obj)
    ensures r == Assign(obj, path, value)
    decreases |path|, 1
  {
    if !Truthy(obj) || |path| == 0 {
      return obj;
    }
    var keys := Split(path, '.');
    var tree := obj;
    var cursor: seq<Slot> := [];
    var current := obj;
    var i := 0;
    while i < |keys| - 1
      invariant Walking(obj, path, value, keys, i, tree, cursor, current)
    {
      var key := keys[i];
      if key == "*" {
        RestShorter(path, keys, i);
        var updated := HandleWildcard(current, keys, i, value);
        WildcardStep(obj, path, value, keys, i, tree, cursor, current);
        return Plug(tree, cursor, updated);
      }
      var stop: bool;
      stop, tree, cursor, current := Advance(obj, path, value, keys, i, tree, cursor, current);
      if stop {
        return tree;
      }
      i := i + 1;
    }
    var final := AssignFinalValue(current, keys[i], value);
    FinalStep(obj, path, value, keys, i, tree, cursor, current);
    r := Plug(tree, cursor, final);
  }

  /** One segment of the loop in `SetNestedValue` other than `*`: either the
      walk stops here, and `tree` is the result, or it moves one slot down. */
  method Advance(ghost obj: Node, ghost path: string, ghost value: Node, keys: seq<string>, i: nat,
                 tree: Node, cursor: seq<Slot>, current: Node)
    returns (stop: bool, tree': Node, cursor': seq<Slot>, current': Node)
    requires Walking(obj, path, value, keys, i, tree, cursor, current)
    requires i + 1 < |keys| && keys[i] != "*"
    ensures stop ==> tree' == Assign(obj, path, value)
    ensures !stop ==> Walking(obj, path, value, keys, i + 1, tree', cursor', current')
  {
    var key := keys[i];
    stop, tree', cursor', current' := true, tree, cursor, current;
    var slot: Slot;
    if key == "-1" && current.Arr? {
      if |current.items| > 0 {
        slot := Index(|current.items| - 1);
      } else {
        // an empty list has no last element: stop, keeping what was done so far
        StopStep(obj, path, value, keys, i, tree, cursor, current);
        return;
      }
    } else if key == "++" || key == "+0" {
      var pushed := DynamicPush(current, key);
      if pushed.None? {
        StopStep(obj, path, value, keys, i, tree, cursor, current);
        return;
      }
      PushStep(obj, path, value, keys, i, tree, cursor, current);
      return false, Plug(tree, cursor, pushed.value.0), cursor + [Index(pushed.value.1)], Obj(map[]);
    } else {
      var named := SlotOf(current, key);
      if named.None? {
        // a key a list does not show: nothing visible changes
        StopStep(obj, path, value, keys, i, tree, cursor, current);
        return;
      }
      slot := named.value;
    }
    var prepared := EnsureStructure(current, slot, keys[i + 1]);
    DescendStep(obj, path, value, keys, i, tree, cursor, current, slot);
    return false, Plug(tree, cursor, prepared), cursor + [slot], Get(prepared, slot);
  }

  /** The invariant of the loop in `SetNestedValue`: `i` segments are done,
      the cursor leads from the root `tree` to `current`, and finishing the
      walk from `current` on gives the result of the whole assignment. */
  ghost predicate Walking(obj: Node, path: string, value: Node, keys: seq<string>, i: nat,
                          tree: Node, cursor: seq<Slot>, current: Node)
  {
    (IsContainer(obj) || !Truthy(obj)) && i < |keys| && keys == Split(path, '.')
    && IsContainer(current) && ValidCursor(tree, cursor) && current == At(tree, cursor)
    && Plug(tree, cursor, Walk(current, keys[i..], value)) == Assign(obj, path, value)
  }

  /** The slot a non-final segment other than `*`, `++` and `+0` moves into:
      the last position for `-1` on a list, the named entry otherwise. */
  predicate Resolves(current: Node, key: string, slot: Slot) {
    if key == "-1" && current.Arr? then |current.items| > 0 && slot == Index(|current.items| - 1)
    else key != "*" && key != "++" && key != "+0" && SlotOf(current, key) == Some(slot)
  }

  /** The segment ends the walk here, leaving `current` as it is. */
  predicate Stops(current: Node, key: string) {
    (key == "-1" && current == Arr([]))
    || ((key == "++" || key == "+0") && !current.Arr?)
    || (key != "*" && key != "++" && key != "+0" && !(key == "-1" && current.Arr?) && SlotOf(current, key).None?)
  }

  /** The path the wildcard hands on is shorter than the whole path, and no
      segment contains a dot. */
  lemma RestShorter(path: string, keys: seq<string>, i: nat)
    requires keys == Split(path, '.') && i + 1 < |keys|
    ensures |Join(keys[i + 1..], ".")| < |path| && Undotted(keys)
  {
    JoinSuffixShorter(keys, i + 1, ".");
    JoinSplit(path, '.');
  }

  lemma StopStep(obj: Node, path: string, value: Node, keys: seq<string>, i: nat,
                 tree: Node, cursor: seq<Slot>, current: Node)
    requires Walking(obj, path, value, keys, i, tree, cursor, current)
    requires i + 1 < |keys| && Stops(current, keys[i])
    ensures tree == Assign(obj, path, value)
  {
    assert keys[i..][0] == keys[i] && keys[i..][1..] == keys[i + 1..];
    assert Walk(current, keys[i..], value) == current;
    PlugAt(tree, cursor);
  }

  lemma WildcardStep(obj: Node, path: string, value: Node, keys: seq<string>, i: nat,
                     tree: Node, cursor: seq<Slot>, current: Node)
    requires Walking(obj, path, value, keys, i, tree, cursor, current)
    requires i + 1 < |keys| && keys[i] == "*"
    ensures Plug(tree, cursor, Wildcard(current, keys[i + 1..], value)) == Assign(obj, path, value)
  {
    assert keys[i..][0] == keys[i] && keys[i..][1..] == keys[i + 1..];
  }

  lemma FinalStep(obj: Node, path: string, value: Node, keys: seq<string>, i: nat,
                  tree: Node, cursor: seq<Slot>, current: Node)
    requires Walking(obj, path, value, keys, i, tree, cursor, current)
    requires i + 1 == |keys|
    ensures Plug(tree, cursor, AssignFinalValue(current, keys[i], value)) == Assign(obj, path, value)
  {
    assert keys[i..] == [keys[i]];
  }

  lemma PushStep(obj: Node, path: string, value: Node, keys: seq<string>, i: nat,
                 tree: Node, cursor: seq<Slot>, current: Node)
    requires Walking(obj, path, value, keys, i, tree, cursor, current)
    requires i + 1 < |keys| && (keys[i] == "++" || keys[i] == "+0") && current.Arr?
    ensures var (list, at) := DynamicPush(current, keys[i]).value;
            Walking(obj, path, value, keys, i + 1, Plug(tree, cursor, list), cursor + [Index(at)], Obj(map[]))
  {
    assert keys[i..][0] == keys[i] && keys[i..][1..] == keys[i + 1..];
    var (list, at) := DynamicPush(current, keys[i]).value;
    StepDown(tree, cursor, list, Index(at), Walk(Obj(map[]), keys[i + 1..], value));
  }

  lemma DescendStep(obj: Node, path: string, value: Node, keys: seq<string>, i: nat,
                    tree: Node, cursor: seq<Slot>, current: Node, slot: Slot)
    requires Walking(obj, path, value, keys, i, tree, cursor, current)
    requires i + 1 < |keys| && Resolves(current, keys[i], slot)
    ensures Fits(current, slot)
    ensures var prepared := EnsureStructure(current, slot, keys[i + 1]);
            Walking(obj, path, value, keys, i + 1, Plug(tree, cursor, prepared), cursor + [slot], Get(prepared, slot))
  {
    assert keys[i..][0] == keys[i] && keys[i..][1..] == keys[i + 1..];
    var prepared := EnsureStructure(current, slot, keys[i + 1]);
    assert Walk(current, keys[i..], value) == Descend(current, slot, keys[i + 1..], value);
    StepDown(tree, cursor, prepared, slot, Walk(Get(prepared, slot), keys[i + 1..], value));
  }

  /** `handleWildcard(current, keys, currentIndex, value)`: the updated current
      node, every container element of a list having had the remaining path
      set on it. */
  method HandleWildcard(current: Node, keys: seq<string>, currentIndex: nat, value: Node) returns (r: Node)
    requires currentIndex + 1 < |keys| && Undotted(keys)
    ensures r == Wildcard(current, keys[currentIndex + 1..], value)
    decreases |Join(keys[currentIndex + 1..], ".")|, 2
  {
    var rest := keys[currentIndex + 1..];
    if !current.Arr? {
      return current;
    }
    UndottedSuffix(keys, currentIndex + 1);
    var remainingPath := Join(rest, ".");
    var items := current.items;
    var j := 0;
    while j < |items|
      invariant Broadcasting(current.items, rest, value, items, j)
    {
      var element := items[j];
      var updated := element;
      if IsContainer(element) {
        updated := SetNestedValue(element, remainingPath, value);
        WildcardReentry(element, rest, value);
      }
      BroadcastNext(current.items, rest, value, items, j, updated);
      items := items[j := updated];
      j := j + 1;
    }
    BroadcastDone(current.items, rest, value, items, j);
    r := Arr(items);
  }

  /** The invariant of the loop in `HandleWildcard`: the first `j` elements
      are updated, the others are as they were. */
  ghost predicate Broadcasting(original: seq<Node>, rest: seq<string>, value: Node, items: seq<Node>, j: nat) {
    |rest| >= 1 && j <= |items| && |items| == |original|
    && items[..j] == BroadcastAll(original[..j], rest, value)
    && items[j..] == original[j..]
  }

  lemma BroadcastNext(original: seq<Node>, rest: seq<string>, value: Node, items: seq<Node>, j: nat, updated: Node)
    requires Broadcasting(original, rest, value, items, j) && j < |items|
    requires updated == if IsContainer(items[j]) && rest != [""] then Walk(items[j], rest, value) else items[j]
    ensures Broadcasting(original, rest, value, items[j := updated], j + 1)
  {
    assert items[j] == original[j];
    assert original[..j + 1][..j] == original[..j];
    assert items[j := updated][..j + 1] == items[..j] + [updated];
    assert items[j := updated][j + 1..] == items[j + 1..];
  }

  lemma BroadcastDone(original: seq<Node>, rest: seq<string>, value: Node, items: seq<Node>, j: nat)
    requires Broadcasting(original, rest, value, items, j) && j >= |items|
    ensures items == BroadcastAll(original, rest, value)
  {
    assert original[..j] == original;
    assert items[..j] == items;
  }
}
