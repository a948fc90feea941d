/** The generic helpers of `utils/base.py`: selecting, grouping, string cleanup,
    boolean parsing and truthiness. */
module Utils {
  import opened Wrappers
  import opened Sequences

  // ---------------------------------------------------------------------------
  // get_first_or_raise

  const EmptyListMessage: string := "The input list is empty."

  /** The first element of `lst`, or a `ValueError` when `lst` is empty. */
  function GetFirstOrRaise<T>(lst: seq<T>): (r: Result<T, Error>)
    ensures r.Success? <==> |lst| > 0
    ensures r.Success? ==> r.value == lst[0]
    ensures r.Failure? ==> r.error == ValueError(EmptyListMessage)
  {
    if |lst| == 0 then Failure(ValueError(EmptyListMessage)) else Success(lst[0])
  }

  /** Prepending to a list makes the prepended element the one selected, and appending
      to a non-empty list does not change the selection. */
  lemma GetFirstOrRaiseConcat<T>(x: T, a: seq<T>, b: seq<T>)
    ensures |a| > 0 ==> GetFirstOrRaise(a + b) == GetFirstOrRaise(a)
    ensures GetFirstOrRaise([x] + b) == Success(x)
  {
  }

  // ---------------------------------------------------------------------------
  // group_by

  /** The items of `items` whose key is `k`, in input order: the list `group_by` builds under `k`. */
  function Group<T, K(==)>(items: seq<T>, key: T -> K, k: K): seq<T>
  {
    Filter(items, x => key(x) == k)
  }

  /** The distinct keys of `items`, in order of first occurrence: the insertion order
      of the dictionary `group_by` builds. */
  function KeysInOrder<T, K(==)>(items: seq<T>, key: T -> K): seq<K>
  {
    if items == [] then []
    else
      var ks := KeysInOrder(items[..|items| - 1], key);
      var k := key(items[|items| - 1]);
      if k in ks then ks else ks + [k]
  }

  /** The groups concatenated in key order. */
  function Flatten<T, K>(groups: map<K, seq<T>>, order: seq<K>): seq<T>
    requires forall k :: k in order ==> k in groups
  {
    if order == [] then [] else groups[order[0]] + Flatten(groups, order[1..])
  }

  /** `groups` and `order` are what `group_by` has built after reading `prefix`. */
  ghost predicate Grouped<T, K>(prefix: seq<T>, key: T -> K, groups: map<K, seq<T>>, order: seq<K>)
  {
    && order == KeysInOrder(prefix, key)
    && (forall k :: k in groups ==> k in order)
    && (forall k :: k in order ==> k in groups)
    && (forall k :: k in groups ==> groups[k] == Group(prefix, key, k) && groups[k] != [])
    && (forall i :: 0 <= i < |prefix| ==> key(prefix[i]) in groups)
    && multiset(Flatten(groups, order)) == multiset(prefix)
  }

  /** Groups `items` by `key`. The result is the dictionary (`groups`) together with its
      key insertion order (`order`), which Python's dict keeps implicitly. */
  method GroupBy<T, K(==)>(items: seq<T>, key: T -> K) returns (groups: map<K, seq<T>>, order: seq<K>)
    ensures order == KeysInOrder(items, key)
    ensures NoDuplicates(order)
    ensures forall k :: k in groups <==> k in order
    ensures forall k :: k in groups ==> groups[k] == Group(items, key, k)
    ensures forall k :: k in groups ==> groups[k] != []
    ensures multiset(Flatten(groups, order)) == multiset(items)
  {
    groups, order := map[], [];
    var i := 0;
    while i < |items|
      invariant 0 <= i <= |items|
      invariant Grouped(items[..i], key, groups, order)
    {
      var item := items[i];
      var k := key(item);
      if k in groups {
        AppendToGroupAt(items, key, i, groups, order);
        groups := groups[k := groups[k] + [item]];
      } else {
        StartGroupAt(items, key, i, groups, order);
        groups := groups[k := [item]];
        order := order + [k];
      }
      i := i + 1;
    }
    assert items[..i] == items;
    GroupedComplete(items, key, groups, order);
  }

  /** `AppendToGroup` at position `i` of the input. */
  lemma AppendToGroupAt<T, K>(items: seq<T>, key: T -> K, i: nat, groups: map<K, seq<T>>, order: seq<K>)
    requires i < |items|
    requires Grouped(items[..i], key, groups, order)
    requires key(items[i]) in groups
    ensures Grouped(items[..i + 1], key, groups[key(items[i]) := groups[key(items[i])] + [items[i]]], order)
  {
    assert items[..i + 1] == items[..i] + [items[i]];
    AppendToGroup(items[..i], key, groups, order, items[i]);
  }

  /** `StartGroup` at position `i` of the input. */
  lemma StartGroupAt<T, K>(items: seq<T>, key: T -> K, i: nat, groups: map<K, seq<T>>, order: seq<K>)
    requires i < |items|
    requires Grouped(items[..i], key, groups, order)
    requires key(items[i]) !in groups
    ensures Grouped(items[..i + 1], key, groups[key(items[i]) := [items[i]]], order + [key(items[i])])
  {
    assert items[..i + 1] == items[..i] + [items[i]];
    StartGroup(items[..i], key, groups, order, items[i]);
  }

  /** Once every item is read, `Grouped` gives what `group_by` returns. */
  lemma GroupedComplete<T, K>(items: seq<T>, key: T -> K, groups: map<K, seq<T>>, order: seq<K>)
    requires Grouped(items, key, groups, order)
    ensures order == KeysInOrder(items, key)
    ensures NoDuplicates(order)
    ensures forall k :: k in groups <==> k in order
    ensures forall k :: k in groups ==> groups[k] == Group(items, key, k)
    ensures forall k :: k in groups ==> groups[k] != []
    ensures multiset(Flatten(groups, order)) == multiset(items)
  {
    KeysInOrderDistinct(items, key);
  }

  /** One more item extends its own group and leaves every other group as it was. */
  lemma GroupSnoc<T, K>(items: seq<T>, key: T -> K, x: T)
    ensures KeysInOrder(items + [x], key) == if key(x) in KeysInOrder(items, key) then KeysInOrder(items, key) else KeysInOrder(items, key) + [key(x)]
    ensures forall k :: Group(items + [x], key, k) == Group(items, key, k) + (if key(x) == k then [x] else [])
  {
    assert (items + [x])[..|items|] == items;
  }

  /** The loop step of `group_by` for an item whose key already has a group. */
  lemma AppendToGroup<T, K>(prefix: seq<T>, key: T -> K, groups: map<K, seq<T>>, order: seq<K>, x: T)
    requires Grouped(prefix, key, groups, order)
    requires key(x) in groups
    ensures Grouped(prefix + [x], key, groups[key(x) := groups[key(x)] + [x]], order)
  {
    var next := groups[key(x) := groups[key(x)] + [x]];
    AppendToGroupOrder(prefix, key, groups, order, x);
    AppendToGroupContents(prefix, key, groups, order, x);
    GroupedIntro(prefix + [x], key, next, order);
  }

  lemma AppendToGroupOrder<T, K>(prefix: seq<T>, key: T -> K, groups: map<K, seq<T>>, order: seq<K>, x: T)
    requires Grouped(prefix, key, groups, order)
    requires key(x) in groups
    ensures KeysInOrder(prefix + [x], key) == order
    ensures multiset(Flatten(groups[key(x) := groups[key(x)] + [x]], order)) == multiset(prefix + [x])
  {
    GroupSnoc(prefix, key, x);
    KeysInOrderDistinct(prefix, key);
    FlattenAppendExisting(groups, order, key(x), x);
  }

  lemma AppendToGroupContents<T, K>(prefix: seq<T>, key: T -> K, groups: map<K, seq<T>>, order: seq<K>, x: T)
    requires Grouped(prefix, key, groups, order)
    requires key(x) in groups
    ensures var next := groups[key(x) := groups[key(x)] + [x]];
      && (forall k :: k in next ==> next[k] == Group(prefix + [x], key, k) && next[k] != [])
      && (forall i :: 0 <= i < |prefix + [x]| ==> key((prefix + [x])[i]) in next)
  {
    var next := groups[key(x) := groups[key(x)] + [x]];
    GroupsExtended(prefix, key, groups, next, x);
    KeysCovered(prefix, key, groups, next, x);
  }

  /** The loop step of `group_by` for an item whose key is new. */
  lemma StartGroup<T, K>(prefix: seq<T>, key: T -> K, groups: map<K, seq<T>>, order: seq<K>, x: T)
    requires Grouped(prefix, key, groups, order)
    requires key(x) !in groups
    ensures Grouped(prefix + [x], key, groups[key(x) := [x]], order + [key(x)])
  {
    var next := groups[key(x) := [x]];
    StartGroupOrder(prefix, key, groups, order, x);
    StartGroupContents(prefix, key, groups, order, x);
    GroupedIntro(prefix + [x], key, next, order + [key(x)]);
  }

  lemma StartGroupOrder<T, K>(prefix: seq<T>, key: T -> K, groups: map<K, seq<T>>, order: seq<K>, x: T)
    requires Grouped(prefix, key, groups, order)
    requires key(x) !in groups
    ensures KeysInOrder(prefix + [x], key) == order + [key(x)]
    ensures multiset(Flatten(groups[key(x) := [x]], order + [key(x)])) == multiset(prefix + [x])
  {
    GroupSnoc(prefix, key, x);
    FlattenAppendNew(groups, order, key(x), x);
  }

  lemma StartGroupContents<T, K>(prefix: seq<T>, key: T -> K, groups: map<K, seq<T>>, order: seq<K>, x: T)
    requires Grouped(prefix, key, groups, order)
    requires key(x) !in groups
    ensures var next := groups[key(x) := [x]];
      && (forall k :: k in next ==> next[k] == Group(prefix + [x], key, k) && next[k] != [])
      && (forall i :: 0 <= i < |prefix + [x]| ==> key((prefix + [x])[i]) in next)
  {
    var next := groups[key(x) := [x]];
    AbsentKeyHasEmptyGroup(prefix, key, groups, key(x));
    GroupsExtended(prefix, key, groups, next, x);
    KeysCovered(prefix, key, groups, next, x);
  }

  /** The five facts that make up `Grouped`. */
  lemma GroupedIntro<T, K>(prefix: seq<T>, key: T -> K, groups: map<K, seq<T>>, order: seq<K>)
    requires order == KeysInOrder(prefix, key)
    requires forall k :: k in groups ==> k in order
    requires forall k :: k in order ==> k in groups
    requires forall k :: k in groups ==> groups[k] == Group(prefix, key, k) && groups[k] != []
    requires forall i :: 0 <= i < |prefix| ==> key(prefix[i]) in groups
    requires multiset(Flatten(groups, order)) == multiset(prefix)
    ensures Grouped(prefix, key, groups, order)
  {
  }

  /** A key that no item of `prefix` has got an empty group. */
  lemma AbsentKeyHasEmptyGroup<T, K>(prefix: seq<T>, key: T -> K, groups: map<K, seq<T>>, k: K)
    requires forall i :: 0 <= i < |prefix| ==> key(prefix[i]) in groups
    requires k !in groups
    ensures Group(prefix, key, k) == []
  {
    GroupNonEmpty(prefix, key, k);
  }

  /** Every key read so far, and the new item's, is a key of the extended dictionary. */
  lemma KeysCovered<T, K>(prefix: seq<T>, key: T -> K, groups: map<K, seq<T>>, next: map<K, seq<T>>, x: T)
    requires forall i :: 0 <= i < |prefix| ==> key(prefix[i]) in groups
    requires groups.Keys <= next.Keys && key(x) in next
    ensures forall i :: 0 <= i < |prefix + [x]| ==> key((prefix + [x])[i]) in next
  {
    forall i | 0 <= i < |prefix + [x]| ensures key((prefix + [x])[i]) in next {
      if i < |prefix| {
        assert (prefix + [x])[i] == prefix[i];
      }
    }
  }

  /** After one more item, the dictionary that extends that item's group holds
      exactly the groups of the longer prefix. */
  lemma GroupsExtended<T, K>(prefix: seq<T>, key: T -> K, groups: map<K, seq<T>>, next: map<K, seq<T>>, x: T)
    requires forall k :: k in groups ==> groups[k] == Group(prefix, key, k) && groups[k] != []
    requires next.Keys == groups.Keys + {key(x)}
    requires next[key(x)] == Group(prefix, key, key(x)) + [x]
    requires forall k :: k in next && k != key(x) ==> next[k] == groups[k]
    ensures forall k :: k in next ==> next[k] == Group(prefix + [x], key, k) && next[k] != []
  {
    GroupSnoc(prefix, key, x);
  }

  /** Two dictionaries that agree on the keys of `order` flatten alike. */
  lemma {:induction false} FlattenFrame<T, K>(g1: map<K, seq<T>>, g2: map<K, seq<T>>, order: seq<K>)
    requires forall k :: k in order ==> k in g1 && k in g2 && g1[k] == g2[k]
    ensures Flatten(g1, order) == Flatten(g2, order)
  {
    if order != [] {
      FlattenFrame(g1, g2, order[1..]);
    }
  }

  /** Flattening with one more key appends that key's group. */
  lemma {:induction false} FlattenSnoc<T, K>(groups: map<K, seq<T>>, order: seq<K>, k: K)
    requires forall k' :: k' in order ==> k' in groups
    requires k in groups
    ensures Flatten(groups, order + [k]) == Flatten(groups, order) + groups[k]
  {
    if order == [] {
      assert order + [k] == [k];
    } else {
      assert (order + [k])[1..] == order[1..] + [k];
      FlattenSnoc(groups, order[1..], k);
    }
  }

  /** Starting a new group with `x` appends `x` to the flattened groups. */
  lemma FlattenAppendNew<T, K>(groups: map<K, seq<T>>, order: seq<K>, k: K, x: T)
    requires forall k' :: k' in order ==> k' in groups
    requires k !in order
    ensures Flatten(groups[k := [x]], order + [k]) == Flatten(groups, order) + [x]
  {
    var g := groups[k := [x]];
    FlattenSnoc(g, order, k);
    FlattenFrame(g, groups, order);
  }

  /** Appending `x` to an existing group adds exactly `x` to the flattened groups. */
  lemma {:induction false} FlattenAppendExisting<T, K>(groups: map<K, seq<T>>, order: seq<K>, k: K, x: T)
    requires forall k' :: k' in order ==> k' in groups
    requires NoDuplicates(order)
    requires k in order
    ensures multiset(Flatten(groups[k := groups[k] + [x]], order)) == multiset(Flatten(groups, order)) + multiset{x}
  {
    var g := groups[k := groups[k] + [x]];
    var rest := order[1..];
    if order[0] == k {
      assert k !in rest by {
        forall j | 0 <= j < |rest| ensures rest[j] != k {
          assert rest[j] == order[j + 1];
        }
      }
      FlattenFrame(g, groups, rest);
    } else {
      assert k in rest;
      FlattenAppendExisting(groups, rest, k, x);
    }
  }

  /** A key occurs in `KeysInOrder` exactly when some item has it. */
  lemma {:induction false} KeysInOrderMembers<T, K>(items: seq<T>, key: T -> K, k: K)
    ensures k in KeysInOrder(items, key) <==> exists i :: 0 <= i < |items| && key(items[i]) == k
  {
    if items != [] {
      var init := items[..|items| - 1];
      KeysInOrderMembers(init, key, k);
      if exists i :: 0 <= i < |init| && key(init[i]) == k {
        var i :| 0 <= i < |init| && key(init[i]) == k;
        assert key(items[i]) == k;
      }
      if exists i :: 0 <= i < |items| && key(items[i]) == k {
        var i :| 0 <= i < |items| && key(items[i]) == k;
        if i < |init| {
          assert key(init[i]) == k;
        }
      }
    }
  }

  /** A key has a non-empty group exactly when some item has it. */
  lemma {:induction false} GroupNonEmpty<T, K>(items: seq<T>, key: T -> K, k: K)
    ensures Group(items, key, k) != [] <==> exists i :: 0 <= i < |items| && key(items[i]) == k
  {
    if items != [] {
      var init := items[..|items| - 1];
      GroupNonEmpty(init, key, k);
      if exists i :: 0 <= i < |init| && key(init[i]) == k {
        var i :| 0 <= i < |init| && key(init[i]) == k;
        assert key(items[i]) == k;
      }
      if exists i :: 0 <= i < |items| && key(items[i]) == k {
        var i :| 0 <= i < |items| && key(items[i]) == k;
        if i < |init| {
          assert key(init[i]) == k;
        }
      }
    }
  }

  /** Every item lands in the group of its own key and in no other. */
  lemma GroupMembership<T, K>(items: seq<T>, key: T -> K, k: K, x: T)
    ensures x in Group(items, key, k) ==> key(x) == k && x in items
    ensures x in items && key(x) == k ==> x in Group(items, key, k)
  {
    FilterCount(items, y => key(y) == k);
    assert multiset(Group(items, key, k))[x] == if key(x) == k then multiset(items)[x] else 0;
  }

  /** Keys are ordered by first occurrence: wherever a later key occurs in the input,
      every earlier key has already occurred before that position. */
  lemma {:induction false} KeysInOrderByFirstOccurrence<T, K>(items: seq<T>, key: T -> K, i: nat, j: nat, q: nat)
    requires i < j < |KeysInOrder(items, key)|
    requires q < |items| && key(items[q]) == KeysInOrder(items, key)[j]
    ensures exists p :: 0 <= p < q && key(items[p]) == KeysInOrder(items, key)[i]
  {
    var init := items[..|items| - 1];
    var ks := KeysInOrder(init, key);
    var last := key(items[|items| - 1]);
    var ki := KeysInOrder(items, key)[i];
    KeysInOrderMembers(init, key, ki);
    var p :| 0 <= p < |init| && key(init[p]) == ki;
    assert key(items[p]) == ki;
    if q < |init| {
      assert key(init[q]) == key(items[q]);
      if j >= |ks| {
        // the last key is new, so it does not occur in `init`
        KeysInOrderMembers(init, key, last);
        assert false;
      }
      KeysInOrderByFirstOccurrence(init, key, i, j, q);
      var p' :| 0 <= p' < q && key(init[p']) == ki;
      assert key(items[p']) == ki;
    }
  }

  /** The keys of `group_by` never repeat. */
  lemma {:induction false} KeysInOrderDistinct<T, K>(items: seq<T>, key: T -> K)
    ensures NoDuplicates(KeysInOrder(items, key))
  {
    if items != [] {
      KeysInOrderDistinct(items[..|items| - 1], key);
    }
  }

  // ---------------------------------------------------------------------------
  // remove_special_chars

  /** Python's `\s` on a `str` pattern: the characters for which `str.isspace()` holds. */
  predicate IsPythonWhitespace(c: char)
  {
    || '\t' <= c <= '\r'
    || '\U{1C}' <= c <= '\U{1F}'
    || c == ' '
    || c == '\U{85}'
    || c == '\U{A0}'
    || c == '\U{1680}'
    || '\U{2000}' <= c <= '\U{200A}'
    || c == '\U{2028}'
    || c == '\U{2029}'
    || c == '\U{202F}'
    || c == '\U{205F}'
    || c == '\U{3000}'
  }

  /** The characters outside the class `[^a-zA-Z0-9\s]`, i.e. those that survive cleaning. */
  predicate IsPlainChar(c: char)
  {
    'a' <= c <= 'z' || 'A' <= c <= 'Z' || '0' <= c <= '9' || IsPythonWhitespace(c)
  }

  /** `s` with every character other than an ASCII letter, an ASCII digit or whitespace deleted. */
  function RemoveSpecialChars(s: string): (r: string)
    ensures forall i :: 0 <= i < |r| ==> IsPlainChar(r[i])
    ensures forall c :: multiset(r)[c] == if IsPlainChar(c) then multiset(s)[c] else 0
    ensures IsSubsequence(r, s)
  {
    FilterCount(s, IsPlainChar);
    FilterIsSubsequence(s, IsPlainChar);
    Filter(s, IsPlainChar)
  }

  /** Cleaning a cleaned string changes nothing. */
  lemma RemoveSpecialCharsIdempotent(s: string)
    ensures RemoveSpecialChars(RemoveSpecialChars(s)) == RemoveSpecialChars(s)
  {
    FilterIdempotent(s, IsPlainChar);
  }

  /** Cleaning a concatenation cleans each part. */
  lemma RemoveSpecialCharsConcat(a: string, b: string)
    ensures RemoveSpecialChars(a + b) == RemoveSpecialChars(a) + RemoveSpecialChars(b)
  {
    FilterConcat(a, b, IsPlainChar);
  }

  // ---------------------------------------------------------------------------
  // remove_newlines

  predicate IsNotNewline(c: char)
  {
    c != '\n'
  }

  /** `s` with every `'\n'` deleted, as `text.replace("\n", "")`. */
  function RemoveNewlines(s: string): (r: string)
    ensures '\n' !in r
    ensures |r| == |s| - multiset(s)['\n']
    ensures forall c :: c != '\n' ==> multiset(r)[c] == multiset(s)[c]
    ensures IsSubsequence(r, s)
  {
    FilterCount(s, IsNotNewline);
    FilterIsSubsequence(s, IsNotNewline);
    FilterRejectsOne(s, IsNotNewline, '\n');
    assert forall i :: 0 <= i < |Filter(s, IsNotNewline)| ==> IsNotNewline(Filter(s, IsNotNewline)[i]);
    Filter(s, IsNotNewline)
  }

  /** A string without newlines is returned unchanged. */
  lemma RemoveNewlinesNoNewline(s: string)
    requires '\n' !in s
    ensures RemoveNewlines(s) == s
  {
    FilterAllKept(s, IsNotNewline);
  }

  // ---------------------------------------------------------------------------
  // str_to_bool

  /** Lower-casing of one character; only ASCII letters are mapped. */
  function LowerChar(c: char): char
  {
    if 'A' <= c <= 'Z' then (c as int + 32) as char else c
  }

  /** `s.lower()`, restricted to ASCII letters. */
  function Lower(s: string): string
  {
    seq(|s|, i requires 0 <= i < |s| => LowerChar(s[i]))
  }

  function InvalidBoolMessage(lowered: string): string
  {
    "Invalid input: " + lowered + ". Expected 'True' or 'False'."
  }

  /** Parses "true" / "false" in any letter case; anything else is a `ValueError`. */
  function StrToBool(s: string): (r: Result<bool, Error>)
    ensures r == Success(true) <==> Lower(s) == "true"
    ensures r == Success(false) <==> Lower(s) == "false"
    ensures r.Failure? ==> r.error == ValueError(InvalidBoolMessage(Lower(s)))
  {
    var lowered := Lower(s);
    if lowered == "true" then Success(true)
    else if lowered == "false" then Success(false)
    else Failure(ValueError(InvalidBoolMessage(lowered)))
  }

  /** Lower-casing is idempotent, so parsing ignores letter case entirely. */
  lemma StrToBoolCaseInsensitive(s: string)
    ensures StrToBool(Lower(s)) == StrToBool(s)
  {
    assert Lower(Lower(s)) == Lower(s);
  }

  /** Python's `str(b)` for a boolean. */
  function BoolToStr(b: bool): string
  {
    if b then "True" else "False"
  }

  /** Parsing inverts printing, in any letter case: `str_to_bool(str(b)) == b`
      and `str_to_bool(str(b).upper()) == b`. */
  lemma StrToBoolRoundTrip(b: bool)
    ensures StrToBool(BoolToStr(b)) == Success(b)
    ensures StrToBool(if b then "TRUE" else "FALSE") == Success(b)
  {
    if b {
      assert Lower("True") == "true";
      assert Lower("TRUE") == "true";
    } else {
      assert Lower("False") == "false";
      assert Lower("FALSE") == "false";
    }
  }

  // ---------------------------------------------------------------------------
  // none_to_str

  /** `None` becomes the empty string; a string is returned as it is. */
  function NoneToStr(value: Option<string>): (r: string)
    ensures value.None? ==> r == ""
    ensures value.Some? ==> r == value.value
  {
    match value
    case None => ""
    case Some(s) => s
  }

  /** The result is empty exactly for `None` and for the empty string. */
  lemma NoneToStrEmpty(value: Option<string>)
    ensures NoneToStr(value) == "" <==> value == None || value == Some("")
  {
  }

  // ---------------------------------------------------------------------------
  // is_truthy / is_falsy

  /** The Python values whose truthiness the model covers. */
  datatype PyValue =
    | PyNone
    | PyBool(b: bool)
    | PyInt(i: int)
    | PyStr(s: string)
    | PyList(items: seq<PyValue>)

  /** Python's `bool(value)`: `None`, `False`, zero and empty sequences are false. */
  function Bool(value: PyValue): bool
  {
    match value
    case PyNone => false
    case PyBool(b) => b
    case PyInt(i) => i != 0
    case PyStr(s) => |s| > 0
    case PyList(items) => |items| > 0
  }

  function IsTruthy(value: PyValue): (r: bool)
    ensures value.PyNone? ==> !r
    ensures value.PyBool? ==> (r <==> value.b)
    ensures value.PyStr? ==> (r <==> |value.s| > 0)
    ensures value.PyList? ==> (r <==> |value.items| > 0)
    ensures value.PyInt? ==> (r <==> value.i != 0)
  {
    Bool(value)
  }

  function IsFalsy(value: PyValue): (r: bool)
    ensures value.PyNone? ==> r
    ensures value.PyBool? ==> (r <==> !value.b)
    ensures value.PyStr? ==> (r <==> value.s == [])
    ensures value.PyList? ==> (r <==> value.items == [])
    ensures value.PyInt? ==> (r <==> value.i == 0)
  {
    !Bool(value)
  }

  /** `is_truthy` and `is_falsy` are complementary. */
  lemma TruthyIsNotFalsy(value: PyValue)
    ensures IsTruthy(value) == !IsFalsy(value)
  {
  }

  /** An optional string is truthy exactly when it is present and non-empty,
      that is when `none_to_str` of it is non-empty. */
  lemma TruthyOptionalString(value: Option<string>)
    ensures IsTruthy(match value case None => PyNone case Some(s) => PyStr(s)) <==> NoneToStr(value) != ""
  {
  }
}
