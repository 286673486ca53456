/** The snake_case to camelCase mapper applied to database rows: every key
    of every plain object is rewritten, values are mapped recursively,
    arrays element-wise, anything else is returned as it is. */
module Mappers {

  import opened Outcomes

  /** A JavaScript value as the mapper sees it. `JInstance` is an object
      whose constructor is not `Object` (a Date, a Buffer, ...): the mapper
      leaves it alone. A plain object keeps its keys in insertion order. */
  datatype Json =
    | JNull
    | JBool(b: bool)
    | JNum(n: real)
    | JStr(s: string)
    | JInstance(className: string)
    | JArray(items: seq<Json>)
    | JObject(fields: seq<Field>)

  datatype Field = Field(key: string, value: Json)

  // ----- the per-key rewrite: /([-_][a-z])/ig -----

  predicate IsSeparator(c: char) { c == '-' || c == '_' }

  /** `[a-z]` under the `i` flag: exactly the ASCII letters. */
  predicate IsAsciiLetter(c: char) { 'a' <= c <= 'z' || 'A' <= c <= 'Z' }

  predicate IsUpper(c: char) { 'A' <= c <= 'Z' }

  predicate IsLower(c: char) { 'a' <= c <= 'z' }

  function ToUpper(c: char): (u: char)
    ensures IsLower(c) ==> IsUpper(u)
    ensures !IsLower(c) ==> u == c
  {
    if IsLower(c) then (c as int - 32) as char else c
  }

  function ToLower(c: char): (l: char)
    ensures IsUpper(c) ==> IsLower(l) && ToUpper(l) == c
    ensures !IsUpper(c) ==> l == c
  {
    if IsUpper(c) then (c as int + 32) as char else c
  }

  /** A separator followed by a letter starts at position `i`. */
  predicate PairAt(s: string, i: int)
  {
    0 <= i && i + 1 < |s| && IsSeparator(s[i]) && IsAsciiLetter(s[i + 1])
  }

  /** Number of matches a global left-to-right scan finds: a match consumes
      both of its characters, so matches never overlap. */
  function MatchCount(s: string): (n: nat)
    ensures 2 * n <= |s|
    decreases |s|
  {
    if |s| < 2 then 0
    else if PairAt(s, 0) then 1 + MatchCount(s[2..])
    else MatchCount(s[1..])
  }

  /** Each match of the pattern is replaced by its letter upper-cased, the
      separator dropped; every other character is kept. */
  function CamelKey(s: string): (r: string)
    ensures |r| == |s| - MatchCount(s)
    ensures forall c :: c in r ==> c in s || IsUpper(c)
    decreases |s|
  {
    if |s| < 2 then s
    else if PairAt(s, 0) then [ToUpper(s[1])] + CamelKey(s[2..])
    else [s[0]] + CamelKey(s[1..])
  }

  /** A key with no separator-letter pair anywhere. */
  predicate NoPair(s: string)
  {
    forall i :: 0 <= i < |s| ==> !PairAt(s, i)
  }

  /** A key without any separator-letter pair is not changed. */
  lemma {:induction false} CamelKeyNoPair(s: string)
    requires NoPair(s)
    ensures CamelKey(s) == s
    decreases |s|
  {
    if |s| >= 2 {
      assert !PairAt(s, 0);
      forall i | 0 <= i < |s[1..]| ensures !PairAt(s[1..], i) {
        assert !PairAt(s, i + 1);
      }
      CamelKeyNoPair(s[1..]);
    }
  }

  /** No separator directly followed by a lower-case letter: the shape of
      every key the mapper produces. */
  predicate NoSeparatorLower(r: string)
  {
    forall i :: 0 <= i < |r| - 1 ==> !(IsSeparator(r[i]) && IsLower(r[i + 1]))
  }

  /** The first character of a rewritten key is the key's own first
      character or an upper-case letter. */
  lemma {:induction false} CamelKeyHead(s: string)
    requires |s| > 0
    ensures |CamelKey(s)| > 0
    ensures CamelKey(s)[0] == s[0] || IsUpper(CamelKey(s)[0])
  {
  }

  /** A rewritten key never keeps a separator in front of a lower-case
      letter: every such pair was a match and was rewritten. */
  lemma {:induction false} CamelKeyClean(s: string)
    ensures NoSeparatorLower(CamelKey(s))
    decreases |s|
  {
    if |s| >= 2 {
      var r := CamelKey(s);
      if PairAt(s, 0) {
        var rest := CamelKey(s[2..]);
        CamelKeyClean(s[2..]);
        assert r == [ToUpper(s[1])] + rest;
        forall i | 0 <= i < |r| - 1 ensures !(IsSeparator(r[i]) && IsLower(r[i + 1])) {
          if i > 0 { assert r[i] == rest[i - 1] && r[i + 1] == rest[i]; }
        }
      } else {
        var rest := CamelKey(s[1..]);
        CamelKeyClean(s[1..]);
        CamelKeyHead(s[1..]);
        assert r == [s[0]] + rest;
        forall i | 0 <= i < |r| - 1 ensures !(IsSeparator(r[i]) && IsLower(r[i + 1])) {
          if i > 0 {
            assert r[i] == rest[i - 1] && r[i + 1] == rest[i];
          } else if IsSeparator(s[0]) {
            assert !IsAsciiLetter(s[1]);
            assert r[1] == rest[0];
          }
        }
      }
    }
  }

  /** The database's naming convention, the inverse direction: each upper-case
      letter becomes '_' and its lower-case form. */
  function SnakeKey(c: string): (r: string)
    ensures |r| >= |c|
  {
    if c == [] then []
    else (if IsUpper(c[0]) then ['_', ToLower(c[0])] else [c[0]]) + SnakeKey(c[1..])
  }

  /** A well-formed snake_case column name: no upper-case letters, no '-',
      and every '_' directly followed by a lower-case letter. */
  predicate IsSnake(s: string)
  {
    forall i {:trigger s[i]} :: 0 <= i < |s| ==>
      !IsUpper(s[i]) && s[i] != '-' && (s[i] == '_' ==> i + 1 < |s| && IsLower(s[i + 1]))
  }

  /** A camelCase identifier: no separators at all. */
  predicate IsCamel(c: string)
  {
    forall i :: 0 <= i < |c| ==> !IsSeparator(c[i])
  }

  /** Every suffix of a snake_case name is one. */
  lemma {:induction false} SnakeSuffix(s: string, k: nat)
    requires IsSnake(s) && k <= |s|
    ensures IsSnake(s[k..])
  {
    var rest := s[k..];
    forall i | 0 <= i < |rest| ensures
      !IsUpper(rest[i]) && rest[i] != '-' && (rest[i] == '_' ==> i + 1 < |rest| && IsLower(rest[i + 1]))
    {
      assert rest[i] == s[i + k];
      if i + 1 < |rest| { assert rest[i + 1] == s[i + k + 1]; }
    }
  }

  /** Round trip one way: a snake_case column name converts to camelCase and
      back to itself (`route_id` to `routeId` to `route_id`). */
  lemma {:induction false} SnakeCamelRoundTrip(s: string)
    requires IsSnake(s)
    ensures SnakeKey(CamelKey(s)) == s
    decreases |s|
  {
    if s == [] {
    } else if s[0] == '_' {
      assert IsLower(s[1]);
      SnakeSuffix(s, 2);
      SnakeCamelRoundTrip(s[2..]);
      SnakePairStep(s);
    } else {
      var rest := s[1..];
      SnakeSuffix(s, 1);
      SnakeCamelRoundTrip(rest);
      if |s| < 2 {
        assert SnakeKey(s) == [s[0]] + SnakeKey(rest);
      } else {
        assert !PairAt(s, 0);
        assert ([s[0]] + CamelKey(rest))[1..] == CamelKey(rest);
      }
    }
  }

  /** The step of the round trip at a '_' followed by a lower-case letter. */
  lemma {:induction false} SnakePairStep(s: string)
    requires |s| >= 2 && s[0] == '_' && IsLower(s[1])
    requires SnakeKey(CamelKey(s[2..])) == s[2..]
    ensures SnakeKey(CamelKey(s)) == s
  {
    assert PairAt(s, 0);
    var rest := s[2..];
    var u := ToUpper(s[1]);
    var t := CamelKey(rest);
    assert CamelKey(s) == [u] + t;
    SnakeUpperCons(u, t);
    assert ToLower(u) == s[1];
    assert s == ['_', s[1]] + rest;
  }

  /** Converting an upper-case letter in front of a key. */
  lemma {:induction false} SnakeUpperCons(u: char, t: string)
    requires IsUpper(u)
    ensures SnakeKey([u] + t) == ['_', ToLower(u)] + SnakeKey(t)
  {
    assert ([u] + t)[1..] == t;
  }

  /** Round trip the other way: a camelCase identifier converts to
      snake_case and back to itself. */
  lemma {:induction false} CamelSnakeRoundTrip(c: string)
    requires IsCamel(c)
    ensures CamelKey(SnakeKey(c)) == c
    decreases |c|
  {
    if c != [] {
      var rest := c[1..];
      assert IsCamel(rest) by {
        forall i | 0 <= i < |rest| ensures !IsSeparator(rest[i]) { assert rest[i] == c[i + 1]; }
      }
      CamelSnakeRoundTrip(rest);
      var tail := SnakeKey(rest);
      if IsUpper(c[0]) {
        var w := ['_', ToLower(c[0])] + tail;
        assert PairAt(w, 0);
        assert w[2..] == tail;
      } else {
        var w := [c[0]] + tail;
        assert !IsSeparator(c[0]);
        if |w| >= 2 {
          assert w[1..] == tail;
        } else {
          assert tail == [] && rest == [];
        }
      }
    }
  }

  // ----- objects: Object.keys(obj).reduce(...) into a fresh object -----

  function Keys(fs: seq<Field>): set<string>
  {
    set i | 0 <= i < |fs| :: fs[i].key
  }

  predicate UniqueKeys(fs: seq<Field>)
  {
    forall i, j :: 0 <= i < j < |fs| ==> fs[i].key != fs[j].key
  }

  lemma {:induction false} KeysCons(f: Field, fs: seq<Field>)
    ensures Keys([f] + fs) == {f.key} + Keys(fs)
  {
    var l := [f] + fs;
    forall x | x in Keys(fs) ensures x in Keys(l) {
      var i :| 0 <= i < |fs| && fs[i].key == x;
      assert l[i + 1].key == x;
    }
    assert l[0].key == f.key;
  }

  /** Value stored under `k`, if any (the first field with that key). */
  function Lookup(fs: seq<Field>, k: string): Option<Json>
  {
    if fs == [] then None
    else if fs[0].key == k then Some(fs[0].value)
    else Lookup(fs[1..], k)
  }

  /** A key reads back nothing exactly when it is absent. */
  lemma {:induction false} LookupAbsent(fs: seq<Field>, k: string)
    ensures Lookup(fs, k).None? <==> k !in Keys(fs)
  {
    if fs != [] {
      KeysCons(fs[0], fs[1..]);
      assert fs == [fs[0]] + fs[1..];
      LookupAbsent(fs[1..], k);
    }
  }

  /** `result[k] = v` on a JavaScript object: an existing key keeps its
      position and takes the new value; a new key goes at the end. */
  function Put(fs: seq<Field>, k: string, v: Json): (r: seq<Field>)
    ensures k in Keys(fs) ==> |r| == |fs|
    ensures k !in Keys(fs) ==> r == fs + [Field(k, v)]
  {
    if fs == [] then
      assert [Field(k, v)][0].key == k;
      [Field(k, v)]
    else if fs[0].key == k then
      KeysCons(fs[0], fs[1..]);
      KeysCons(Field(k, v), fs[1..]);
      [Field(k, v)] + fs[1..]
    else
      var tail := Put(fs[1..], k, v);
      KeysCons(fs[0], fs[1..]);
      KeysCons(fs[0], tail);
      [fs[0]] + tail
  }

  /** `Put` adds `k` to the keys and no other key. */
  lemma {:induction false} PutKeys(fs: seq<Field>, k: string, v: Json)
    ensures Keys(Put(fs, k, v)) == Keys(fs) + {k}
  {
    if fs == [] {
      assert [Field(k, v)][0].key == k;
    } else if fs[0].key == k {
      KeysCons(fs[0], fs[1..]);
      KeysCons(Field(k, v), fs[1..]);
      assert fs == [fs[0]] + fs[1..];
    } else {
      var tail := Put(fs[1..], k, v);
      assert Put(fs, k, v) == [fs[0]] + tail;
      PutKeys(fs[1..], k, v);
      KeysCons(fs[0], fs[1..]);
      KeysCons(fs[0], tail);
      assert fs == [fs[0]] + fs[1..];
    }
  }

  /** After `Put`, `k` reads back the new value and every other key reads
      what it read before. */
  lemma {:induction false} PutLookup(fs: seq<Field>, k: string, v: Json)
    ensures Lookup(Put(fs, k, v), k) == Some(v)
    ensures forall k' :: k' != k ==> Lookup(Put(fs, k, v), k') == Lookup(fs, k')
  {
    if fs != [] && fs[0].key != k {
      PutLookup(fs[1..], k, v);
      var r := Put(fs, k, v);
      assert r[1..] == Put(fs[1..], k, v);
    }
  }

  /** `Put` never creates a duplicate key. */
  lemma {:induction false} PutUnique(fs: seq<Field>, k: string, v: Json)
    requires UniqueKeys(fs)
    ensures UniqueKeys(Put(fs, k, v))
  {
    if fs != [] {
      if fs[0].key == k {
        PutReplaceUnique(fs, k, v);
      } else {
        var tail := Put(fs[1..], k, v);
        assert Put(fs, k, v) == [fs[0]] + tail;
        PutUnique(fs[1..], k, v);
        PutKeys(fs[1..], k, v);
        HeadKeyFresh(fs);
        ConsUnique(fs[0], tail);
      }
    }
  }

  /** Overwriting the first key in place keeps the keys distinct. */
  lemma {:induction false} PutReplaceUnique(fs: seq<Field>, k: string, v: Json)
    requires UniqueKeys(fs) && fs != [] && fs[0].key == k
    ensures UniqueKeys(Put(fs, k, v))
  {
    var r := Put(fs, k, v);
    assert r == [Field(k, v)] + fs[1..];
    forall i, j | 0 <= i < j < |r| ensures r[i].key != r[j].key {
      assert r[j] == fs[j];
      if i > 0 { assert r[i] == fs[i]; }
    }
  }

  /** In an object with distinct keys, the first key does not occur again. */
  lemma {:induction false} HeadKeyFresh(fs: seq<Field>)
    requires UniqueKeys(fs) && fs != []
    ensures fs[0].key !in Keys(fs[1..])
  {
    forall j | 0 <= j < |fs[1..]| ensures fs[1..][j].key != fs[0].key {
      assert fs[1..][j] == fs[j + 1];
    }
  }

  /** A field whose key is new in front of distinct keys keeps them distinct. */
  lemma {:induction false} ConsUnique(f: Field, fs: seq<Field>)
    requires UniqueKeys(fs) && f.key !in Keys(fs)
    ensures UniqueKeys([f] + fs)
  {
    var r := [f] + fs;
    forall i, j | 0 <= i < j < |r| ensures r[i].key != r[j].key {
      assert r[j] == fs[j - 1];
      if i > 0 {
        assert r[i] == fs[i - 1];
      } else {
        assert fs[j - 1].key in Keys(fs);
      }
    }
  }

  /** The mapper. */
  function ToCamelCase(j: Json): (r: Json)
    ensures j.JArray? <==> r.JArray?
    ensures j.JObject? <==> r.JObject?
    ensures j.JArray? ==> |r.items| == |j.items|
    ensures j.JObject? ==> UniqueKeys(r.fields) && |r.fields| <= |j.fields|
    ensures !j.JArray? && !j.JObject? ==> r == j
    decreases j, 1, 0
  {
    match j
    case JArray(items) => JArray(seq(|items|, i requires 0 <= i < |items| => ToCamelCase(items[i])))
    case JObject(fields) => JObject(ConvertFields(j, |fields|))
    case _ => j
  }

  /** The object built by the reduce after its first `n` keys. */
  function ConvertFields(obj: Json, n: nat): (r: seq<Field>)
    requires obj.JObject? && n <= |obj.fields|
    ensures UniqueKeys(r) && |r| <= n
    decreases obj, 0, n
  {
    if n == 0 then []
    else
      var f := obj.fields[n - 1];
      var acc := ConvertFields(obj, n - 1);
      PutUnique(acc, CamelKey(f.key), ToCamelCase(f.value));
      Put(acc, CamelKey(f.key), ToCamelCase(f.value))
  }

  /** Index of the last of the first `n` fields whose key maps to `k`, or -1. */
  function LastWithKey(fs: seq<Field>, n: nat, k: string): (i: int)
    requires n <= |fs|
    ensures -1 <= i < n
    ensures i >= 0 ==> CamelKey(fs[i].key) == k
    ensures forall m :: i < m < n ==> CamelKey(fs[m].key) != k
  {
    if n == 0 then -1
    else if CamelKey(fs[n - 1].key) == k then n - 1
    else LastWithKey(fs, n - 1, k)
  }

  /** When two keys map to the same camelCase key, the later one's value wins. */
  lemma {:induction false} LaterKeyWins(obj: Json, n: nat, k: string)
    requires obj.JObject? && n <= |obj.fields|
    ensures var i := LastWithKey(obj.fields, n, k);
      Lookup(ConvertFields(obj, n), k)
        == if i < 0 then None else Some(ToCamelCase(obj.fields[i].value))
  {
    if n > 0 {
      LaterKeyWins(obj, n - 1, k);
      var f := obj.fields[n - 1];
      var acc := ConvertFields(obj, n - 1);
      assert ConvertFields(obj, n) == Put(acc, CamelKey(f.key), ToCamelCase(f.value));
      PutLookup(acc, CamelKey(f.key), ToCamelCase(f.value));
      if CamelKey(f.key) == k {
        assert LastWithKey(obj.fields, n, k) == n - 1;
      } else {
        assert LastWithKey(obj.fields, n, k) == LastWithKey(obj.fields, n - 1, k);
      }
    }
  }

  /** The converted object's keys are exactly the camelCase forms of the
      source keys. */
  lemma {:induction false} ConvertKeys(obj: Json, n: nat, k: string)
    requires obj.JObject? && n <= |obj.fields|
    ensures k in Keys(ConvertFields(obj, n)) <==> exists i :: 0 <= i < n && CamelKey(obj.fields[i].key) == k
  {
    LaterKeyWins(obj, n, k);
    LookupAbsent(ConvertFields(obj, n), k);
    var last := LastWithKey(obj.fields, n, k);
    if last < 0 {
      assert forall i :: 0 <= i < n ==> CamelKey(obj.fields[i].key) != k;
    }
  }

  /** A key with a separator in front of a lower-case letter, such as a
      snake_case column name, is never a key of a converted object: reading
      it from the mapper's output finds nothing. */
  lemma {:induction false} SnakeKeyLost(obj: Json, k: string, p: nat)
    requires obj.JObject?
    requires p + 1 < |k| && IsSeparator(k[p]) && IsLower(k[p + 1])
    ensures k !in Keys(ToCamelCase(obj).fields)
    ensures Lookup(ToCamelCase(obj).fields, k) == None
  {
    var fs := ToCamelCase(obj).fields;
    assert fs == ConvertFields(obj, |obj.fields|);
    ConvertKeys(obj, |obj.fields|, k);
    forall i | 0 <= i < |obj.fields| ensures CamelKey(obj.fields[i].key) != k {
      CamelKeyClean(obj.fields[i].key);
    }
    LookupAbsent(fs, k);
  }

  /** A value the mapper has nothing to do to: every object has distinct
      keys without a separator-letter pair, all the way down. */
  predicate AlreadyCamel(j: Json)
  {
    match j
    case JArray(items) => forall i :: 0 <= i < |items| ==> AlreadyCamel(items[i])
    case JObject(fields) =>
      UniqueKeys(fields) &&
      forall i :: 0 <= i < |fields| ==> NoPair(fields[i].key) && AlreadyCamel(fields[i].value)
    case _ => true
  }

  /** The mapper is the identity on values that are already camelCase. */
  lemma {:induction false} AlreadyCamelUnchanged(j: Json)
    requires AlreadyCamel(j)
    ensures ToCamelCase(j) == j
    decreases j, 1, 0
  {
    match j
    case JArray(items) =>
      forall i | 0 <= i < |items| ensures ToCamelCase(items[i]) == items[i] {
        AlreadyCamelUnchanged(items[i]);
      }
      assert ToCamelCase(j).items == items;
    case JObject(fields) =>
      forall i | 0 <= i < |fields| ensures ToCamelCase(fields[i].value) == fields[i].value {
        AlreadyCamelUnchanged(fields[i].value);
      }
      AlreadyCamelFields(j, |fields|);
      assert fields[..|fields|] == fields;
    case _ =>
  }

  /** The reduce rebuilds an object whose keys are distinct and camelCase
      and whose values the mapper leaves alone. */
  lemma {:induction false} AlreadyCamelFields(obj: Json, n: nat)
    requires obj.JObject? && n <= |obj.fields| && UniqueKeys(obj.fields)
    requires forall i :: 0 <= i < n ==> NoPair(obj.fields[i].key)
    requires forall i :: 0 <= i < n ==> ToCamelCase(obj.fields[i].value) == obj.fields[i].value
    ensures ConvertFields(obj, n) == obj.fields[..n]
  {
    if n > 0 {
      AlreadyCamelFields(obj, n - 1);
      UnchangedFieldStep(obj, n);
    }
  }

  /** Field `n - 1` of an object with distinct camelCase keys is carried
      over as it is. */
  lemma {:induction false} UnchangedFieldStep(obj: Json, n: nat)
    requires obj.JObject? && 0 < n <= |obj.fields| && UniqueKeys(obj.fields)
    requires ConvertFields(obj, n - 1) == obj.fields[..n - 1]
    requires NoPair(obj.fields[n - 1].key)
    requires ToCamelCase(obj.fields[n - 1].value) == obj.fields[n - 1].value
    ensures ConvertFields(obj, n) == obj.fields[..n]
  {
    CamelKeyNoPair(obj.fields[n - 1].key);
    UniqueLast(obj.fields, n);
    ConvertAppends(obj, n);
  }

  /** In an object with distinct keys, no earlier field shares a key with
      field `n - 1`. */
  lemma {:induction false} UniqueLast(fs: seq<Field>, n: nat)
    requires UniqueKeys(fs) && 0 < n <= |fs|
    ensures fs[n - 1].key !in Keys(fs[..n - 1])
  {
    var pre := fs[..n - 1];
    forall i | 0 <= i < |pre| ensures pre[i].key != fs[n - 1].key {
      assert pre[i] == fs[i];
    }
  }

  /** A field whose key and value the mapper leaves alone, and whose key is
      new, is appended unchanged by the reduce. */
  lemma {:induction false} ConvertAppends(obj: Json, n: nat)
    requires obj.JObject? && 0 < n <= |obj.fields|
    requires ConvertFields(obj, n - 1) == obj.fields[..n - 1]
    requires CamelKey(obj.fields[n - 1].key) == obj.fields[n - 1].key
    requires ToCamelCase(obj.fields[n - 1].value) == obj.fields[n - 1].value
    requires obj.fields[n - 1].key !in Keys(obj.fields[..n - 1])
    ensures ConvertFields(obj, n) == obj.fields[..n]
  {
    var f := obj.fields[n - 1];
    assert ConvertFields(obj, n) == Put(obj.fields[..n - 1], f.key, f.value);
    TakeSnoc(obj.fields, n);
  }

  lemma {:induction false} TakeSnoc<T>(s: seq<T>, n: nat)
    requires 0 < n <= |s|
    ensures s[..n] == s[..n - 1] + [s[n - 1]]
  {
  }
}
