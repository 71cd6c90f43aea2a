/**
  The fragment of JavaScript semantics the handlers rely on: the values a
  parsed JSON request body can hold, truthiness and loose equality with null,
  property lookup, `Object.keys` / `Object.values`, and `String.prototype.split`
  / `Array.prototype.join`.
*/
module Js {

  /** A JavaScript value as it reaches a handler from a parsed JSON body.
      `Undefined` is what reading an absent property yields. JSON cannot
      produce NaN or the infinities, so numbers are the finite reals. */
  datatype Value =
    | Undefined
    | Null
    | Bool(b: bool)
    | Num(x: real)
    | Str(s: string)
    | Arr(items: seq<Value>)
    | Obj(entries: seq<Entry>)

  /** One own property of an object, in `Object.keys` order. */
  datatype Entry = Entry(key: string, value: Value)

  ghost predicate UniqueKeys(o: seq<Entry>) {
    forall i, j :: 0 <= i < j < |o| ==> o[i].key != o[j].key
  }

  /** A parsed JSON object: its own properties in enumeration order, each key once. */
  type Body = o: seq<Entry> | UniqueKeys(o) witness []

  /** `!!v`: the falsy values are exactly undefined, null, false, 0 and the
      empty string. */
  predicate Truthy(v: Value): (t: bool)
    ensures !t <==> v in {Undefined, Null, Bool(false), Num(0.0), Str("")}
  {
    match v
    case Undefined => false
    case Null => false
    case Bool(b) => b
    case Num(x) => x != 0.0
    case Str(s) => s != ""
    case Arr(_) => true
    case Obj(_) => true
  }

  /** `v == null` with JavaScript's loose equality: true for null and undefined
      only, both of which are falsy. */
  predicate IsNullish(v: Value): (n: bool)
    ensures n ==> !Truthy(v)
    ensures n <==> v in {Undefined, Null}
  {
    v.Undefined? || v.Null?
  }

  /** Property read `o[key]`: the value stored under `key`, or undefined. */
  function Get(o: seq<Entry>, key: string): (v: Value)
    ensures (forall i :: 0 <= i < |o| ==> o[i].key != key) ==> v == Undefined
    ensures (exists i :: 0 <= i < |o| && o[i].key == key) ==>
              exists i :: 0 <= i < |o| && o[i].key == key && o[i].value == v
  {
    if |o| == 0 then Undefined
    else if o[0].key == key then o[0].value
    else
      var v := Get(o[1..], key);
      assert forall i :: 0 <= i < |o| - 1 ==> o[1..][i] == o[i + 1];
      v
  }

  /** With unique keys, reading the key of any entry yields exactly that entry's value. */
  lemma {:induction false} GetAt(o: seq<Entry>)
    requires UniqueKeys(o)
    ensures forall i :: 0 <= i < |o| ==> Get(o, o[i].key) == o[i].value
  {
    if |o| > 0 {
      var tail := o[1..];
      assert UniqueKeys(tail) by {
        forall a, b | 0 <= a < b < |tail| ensures tail[a].key != tail[b].key {
          assert tail[a] == o[a + 1] && tail[b] == o[b + 1];
        }
      }
      GetAt(tail);
      forall i | 0 < i < |o| ensures Get(o, o[i].key) == o[i].value {
        assert o[0].key != o[i].key;
        assert tail[i - 1] == o[i];
      }
    }
  }

  /** `Object.keys(o)`: the entries' keys in entry order (by definition; the
      contract alone does not fix the order of keys whose values coincide),
      each key once, and reading each gives its entry's value; any other key
      reads undefined. */
  function Keys(o: Body): (ks: seq<string>)
    ensures |ks| == |o|
    ensures forall i, j :: 0 <= i < j < |ks| ==> ks[i] != ks[j]
    ensures forall i :: 0 <= i < |o| ==> Get(o, ks[i]) == o[i].value
    ensures forall k :: k !in ks ==> Get(o, k) == Undefined
  {
    GetAt(o);
    seq(|o|, i requires 0 <= i < |o| => o[i].key)
  }

  /** `Object.values(o)`: the value read under each key, in `Object.keys` order. */
  function Values(o: Body): (vs: seq<Value>)
    ensures |vs| == |o|
    ensures forall i :: 0 <= i < |o| ==> vs[i] == Get(o, Keys(o)[i])
  {
    seq(|o|, i requires 0 <= i < |o| => o[i].value)
  }

  /** `keys.map(key => o[key])`: over the body's own keys this is exactly
      `Object.values`, so the two ways the source files build the PATCH
      parameters agree; a key the body lacks gives undefined. */
  function ValuesOf(o: Body, keys: seq<string>): (vs: seq<Value>)
    ensures |vs| == |keys|
    ensures keys == Keys(o) ==> vs == Values(o)
    ensures forall i :: 0 <= i < |keys| && keys[i] !in Keys(o) ==> vs[i] == Undefined
  {
    seq(|keys|, i requires 0 <= i < |keys| => Get(o, keys[i]))
  }

  /** How many times `c` occurs in `s`; none exactly when `c` is not in `s`. */
  function Count(s: string, c: char): (n: nat)
    ensures n == 0 <==> c !in s
  {
    if |s| == 0 then 0
    else (if s[0] == c then 1 else 0) + Count(s[1..], c)
  }

  /** Counting distributes over concatenation. */
  lemma {:induction false} CountOfConcat(a: string, b: string, c: char)
    ensures Count(a + b, c) == Count(a, c) + Count(b, c)
  {
    if |a| == 0 {
      assert a + b == b;
    } else {
      CountOfConcat(a[1..], b, c);
      assert (a + b)[0] == a[0] && (a + b)[1..] == a[1..] + b;
    }
  }

  /** How many times `c` occurs in all of `parts` together. */
  function Occurrences(parts: seq<string>, c: char): nat {
    if |parts| == 0 then 0 else Count(parts[0], c) + Occurrences(parts[1..], c)
  }

  /** `c` occurs nowhere in `parts` exactly when none of the parts contains it. */
  lemma {:induction false} NoOccurrences(parts: seq<string>, c: char)
    ensures Occurrences(parts, c) == 0 <==> forall k :: 0 <= k < |parts| ==> c !in parts[k]
  {
    if |parts| > 0 {
      NoOccurrences(parts[1..], c);
      assert forall k :: 0 < k < |parts| ==> parts[1..][k - 1] == parts[k];
    }
  }

  /** `parts.join(sep)`: a character the separator lacks occurs in the result
      as often as in the parts together. */
  function Join(parts: seq<string>, sep: string): (r: string)
    ensures forall c :: c !in sep ==> Count(r, c) == Occurrences(parts, c)
  {
    if |parts| == 0 then ""
    else if |parts| == 1 then parts[0]
    else
      var rest := Join(parts[1..], sep);
      assert forall c :: c !in sep ==> Count(parts[0] + sep + rest, c) == Count(parts[0], c) + Count(rest, c) by {
        forall c | c !in sep ensures Count(parts[0] + sep + rest, c) == Count(parts[0], c) + Count(rest, c) {
          CountOfConcat(parts[0], sep, c);
          CountOfConcat(parts[0] + sep, rest, c);
        }
      }
      parts[0] + sep + rest
  }

  /** The text `parts.join(sep)` holds ahead of part i: the parts before it,
      each followed by the separator. */
  function JoinedBefore(parts: seq<string>, sep: string, i: nat): string
    requires i <= |parts|
  {
    if i == 0 then "" else Join(parts[..i], sep) + sep
  }

  /** The text `parts.join(sep)` holds behind part i: the separator ahead of
      each later part. */
  function JoinedAfter(parts: seq<string>, sep: string, i: nat): string
    requires i < |parts|
  {
    if i == |parts| - 1 then "" else sep + Join(parts[i + 1..], sep)
  }

  /** Concatenation regroups freely. */
  lemma Regroup(a: string, b: string, c: string, d: string)
    ensures a + (b + c + d) == a + b + c + d
  {
  }

  /** Ahead of part i sit the first part and the separator, then what sits
      ahead of part i - 1 in the join of the remaining parts. */
  lemma JoinedBeforeTail(parts: seq<string>, sep: string, i: nat)
    requires 0 < i < |parts|
    ensures JoinedBefore(parts, sep, i) == parts[0] + sep + JoinedBefore(parts[1..], sep, i - 1)
  {
    if i == 1 {
      assert parts[..1] == [parts[0]];
    } else {
      assert parts[..i][1..] == parts[1..][..i - 1];
    }
  }

  /** Behind part i sits what sits behind part i - 1 in the join of the
      remaining parts. */
  lemma JoinedAfterTail(parts: seq<string>, sep: string, i: nat)
    requires 0 < i < |parts|
    ensures JoinedAfter(parts, sep, i) == JoinedAfter(parts[1..], sep, i - 1)
  {
    assert parts[1..][i..] == parts[i + 1..];
  }

  /** Part i of a join sits between the parts before it and the parts after it,
      in order. */
  lemma {:induction false} JoinAt(parts: seq<string>, sep: string, i: nat)
    requires i < |parts|
    ensures Join(parts, sep) == JoinedBefore(parts, sep, i) + parts[i] + JoinedAfter(parts, sep, i)
  {
    if i == 0 {
      if |parts| > 1 {
        assert parts[1..] == parts[i + 1..];
      }
    } else {
      var tail := parts[1..];
      var head, before, after := parts[0] + sep, JoinedBefore(tail, sep, i - 1), JoinedAfter(tail, sep, i - 1);
      JoinAt(tail, sep, i - 1);
      JoinedBeforeTail(parts, sep, i);
      JoinedAfterTail(parts, sep, i);
      assert tail[i - 1] == parts[i];
      assert Join(parts, sep) == head + Join(tail, sep);
      Regroup(head, before, parts[i], after);
    }
  }

  /** `s.split(sep)` for a one-character separator: the maximal separator-free
      pieces between separators, so `"" .split(" ")` is `[""]` and a trailing
      separator yields a trailing empty piece. */
  function Split(s: string, sep: char): (parts: seq<string>)
    ensures |parts| >= 1
    ensures forall k :: 0 <= k < |parts| ==> sep !in parts[k]
    decreases |s|
  {
    if s == [] then [""]
    else
      var rest := Split(s[1..], sep);
      if s[0] == sep then [""] + rest
      else [[s[0]] + rest[0]] + rest[1..]
  }

  lemma JoinPrependChar(c: char, parts: seq<string>, sep: string)
    requires |parts| >= 1
    ensures Join([[c] + parts[0]] + parts[1..], sep) == [c] + Join(parts, sep)
  {
    var q := [[c] + parts[0]] + parts[1..];
    assert q[1..] == parts[1..];
  }

  /** Joining the pieces with the separator gives back the string. */
  lemma {:induction false} SplitJoin(s: string, sep: char)
    ensures Join(Split(s, sep), [sep]) == s
    decreases |s|
  {
    if s != [] {
      SplitJoin(s[1..], sep);
      var rest := Split(s[1..], sep);
      if s[0] == sep {
        assert ([""] + rest)[1..] == rest;
        assert s == [s[0]] + s[1..];
      } else {
        JoinPrependChar(s[0], rest, [sep]);
        assert s == [s[0]] + s[1..];
      }
    }
  }

  /** Splitting a join of separator-free pieces gives back exactly those pieces:
      with SplitJoin, this determines `Split` completely. */
  lemma {:induction false} SplitUnique(parts: seq<string>, sep: char)
    requires |parts| >= 1
    requires forall k :: 0 <= k < |parts| ==> sep !in parts[k]
    ensures Split(Join(parts, [sep]), sep) == parts
    decreases |parts|, |parts[0]|
  {
    var s := Join(parts, [sep]);
    if parts[0] == "" {
      if |parts| > 1 {
        SplitUnique(parts[1..], sep);
        assert s == [sep] + Join(parts[1..], [sep]);
        assert s[1..] == Join(parts[1..], [sep]);
        assert parts == [""] + parts[1..];
      }
    } else {
      var c, p := parts[0][0], parts[0][1..];
      var q := [p] + parts[1..];
      assert parts[0] == [c] + p;
      assert q[1..] == parts[1..];
      assert forall k :: 0 <= k < |q| ==> sep !in q[k] by {
        forall k | 0 <= k < |q| ensures sep !in q[k] {
          if k == 0 { assert p == parts[0][1..]; } else { assert q[k] == parts[k]; }
        }
      }
      SplitUnique(q, sep);
      JoinPrependChar(c, q, [sep]);
      assert [[c] + q[0]] + q[1..] == parts;
      assert s == [c] + Join(q, [sep]);
      assert s[1..] == Join(q, [sep]);
      assert c != sep by { assert parts[0][0] == c; }
      assert parts == [[c] + p] + parts[1..];
    }
  }

  /** A separator-free prefix followed by the separator is split off as the first piece. */
  lemma SplitAfterFirstSeparator(a: string, r: string, sep: char)
    requires sep !in a
    ensures Split(a + [sep] + r, sep) == [a] + Split(r, sep)
  {
    var rest := Split(r, sep);
    SplitJoin(r, sep);
    var parts := [a] + rest;
    assert parts[1..] == rest;
    assert Join(parts, [sep]) == a + [sep] + r;
    assert forall k :: 0 <= k < |parts| ==> sep !in parts[k] by {
      forall k | 0 <= k < |parts| ensures sep !in parts[k] {
        if k > 0 { assert parts[k] == rest[k - 1]; }
      }
    }
    SplitUnique(parts, sep);
  }
}
