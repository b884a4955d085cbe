/** JSON values as trees. Looking a name up in an object finds the first field of that name, as gjson does;
    names are taken as they are, without gjson's path syntax. */
module Json {
  import opened Bytes

  datatype Field = Field(name: string, value: Value)

  datatype Value =
    | Null
    | Bool(b: bool)
    | Number(text: string)
    | String(s: string)
    | Array(items: seq<Value>)
    | Object(fields: seq<Field>)

  function Lookup(fields: seq<Field>, name: string): (r: Option<Value>)
    ensures r.Some? ==> Field(name, r.value) in fields
    ensures r.None? ==> forall i :: 0 <= i < |fields| ==> fields[i].name != name
  {
    if fields == [] then None
    else if fields[0].name == name then Some(fields[0].value)
    else Lookup(fields[1..], name)
  }

  /** It is the first one. */
  lemma {:induction false} LookupFirst(fields: seq<Field>, i: nat)
    requires i < |fields| && forall j :: 0 <= j < i ==> fields[j].name != fields[i].name
    ensures Lookup(fields, fields[i].name) == Some(fields[i].value)
  {
    if i > 0 {
      LookupFirst(fields[1..], i - 1);
    }
  }

  /** Result.Get; nothing is found in what is not an object. */
  function Get(v: Value, name: string): Option<Value> {
    if v.Object? then Lookup(v.fields, name) else None
  }

  // ----- decimal numbers, as %d prints them -----

  function Digit(d: nat): char
    requires d < 10
  {
    '0' + d as char
  }

  function Decimal(n: nat): string {
    if n < 10 then [Digit(n)] else Decimal(n / 10) + [Digit(n % 10)]
  }

  function DigitValue(c: char): int { c as int - '0' as int }

  function ParseDecimal(s: string): int {
    if s == [] then 0 else ParseDecimal(s[..|s| - 1]) * 10 + DigitValue(s[|s| - 1])
  }

  lemma {:induction false} DecimalParses(n: nat)
    ensures ParseDecimal(Decimal(n)) == n
    ensures Decimal(n) != [] && forall i :: 0 <= i < |Decimal(n)| ==> '0' <= Decimal(n)[i] <= '9'
  {
    if n >= 10 {
      DecimalParses(n / 10);
      var s := Decimal(n);
      assert s[..|s| - 1] == Decimal(n / 10);
    }
  }

  /** Digits have their values, the last one counts once, and no number starts with a zero but zero itself. */
  lemma {:induction false} DecimalIsCanonical(n: nat, s: string, c: char)
    requires '0' <= c <= '9'
    ensures ParseDecimal([]) == 0 && ParseDecimal(s + [c]) == ParseDecimal(s) * 10 + (c as int - 48)
    ensures if n == 0 then Decimal(n) == "0" else Decimal(n)[0] != '0'
  {
    assert (s + [c])[..|s|] == s;
    if n >= 10 {
      DecimalIsCanonical(n / 10, s, c);
    }
  }

  lemma DecimalInjective(m: nat, n: nat)
    requires Decimal(m) == Decimal(n)
    ensures m == n
  {
    DecimalParses(m);
    DecimalParses(n);
  }

  // ----- the keys of an object, in descending order -----

  function Codes(s: string): seq<int> { seq(|s|, i requires 0 <= i < |s| => s[i] as int) }

  /** strings.Compare(a, b) > 0 */
  predicate Above(a: string, b: string) { Less(Codes(b), Codes(a)) }

  /** The first difference decides; without one the longer string is above the shorter. */
  lemma AboveMeans(a: string, b: string)
    ensures Above(a, b) <==> exists k: nat :: k <= |b| && k < |a| && b[..k] == a[..k] && (k == |b| || b[k] < a[k])
  {
    LessMeans(Codes(b), Codes(a));
    hide Less;
    forall k: nat | k <= |b| && k <= |a| ensures Codes(b)[..k] == Codes(a)[..k] <==> b[..k] == a[..k] {
      if Codes(b)[..k] == Codes(a)[..k] {
        forall i | 0 <= i < k ensures b[i] == a[i] {
          assert Codes(b)[..k][i] == b[i] as int && Codes(a)[..k][i] == a[i] as int;
        }
      }
    }
  }

  function InsertKey(keys: seq<string>, name: string): seq<string> {
    if keys == [] then [name]
    else if keys[0] == name then keys
    else if Above(keys[0], name) then [keys[0]] + InsertKey(keys[1..], name)
    else [name] + keys
  }

  /** sortedJSONKeys */
  function SortedKeys(fields: seq<Field>): seq<string> {
    if fields == [] then [] else InsertKey(SortedKeys(fields[1..]), fields[0].name)
  }

  predicate Descending(keys: seq<string>) {
    forall i, j :: 0 <= i < j < |keys| ==> Above(keys[i], keys[j])
  }

  lemma AboveTotal(a: string, b: string)
    ensures Above(a, b) || a == b || Above(b, a)
    ensures !Above(a, a)
  {
    LessTotal(Codes(a), Codes(b));
    LessIrreflexive(Codes(a));
    if Codes(a) == Codes(b) {
      forall i | 0 <= i < |a| ensures |a| == |b| && a[i] == b[i] {
        assert Codes(a)[i] == a[i] as int && Codes(b)[i] == b[i] as int && |Codes(b)| == |b|;
      }
      assert |Codes(a)| == |Codes(b)|;
      assert a == b;
    }
  }

  lemma AboveTransitive(a: string, b: string, c: string)
    requires Above(a, b) && Above(b, c)
    ensures Above(a, c)
  {
    LessTransitive(Codes(c), Codes(b), Codes(a));
  }

  lemma {:induction false} InsertKeyDescends(keys: seq<string>, name: string)
    requires Descending(keys)
    ensures Descending(InsertKey(keys, name))
    ensures forall k :: k in InsertKey(keys, name) <==> k in keys || k == name
  {
    hide Above;
    if keys != [] {
      var tail := keys[1..];
      assert keys == [keys[0]] + tail;
      AboveTotal(keys[0], name);
      if Above(keys[0], name) && keys[0] != name {
        InsertKeyDescends(tail, name);
        var r := InsertKey(tail, name);
        forall j | 0 <= j < |r| ensures Above(keys[0], r[j]) {
          assert r[j] in r;
          if r[j] != name {
            var k :| 0 <= k < |tail| && tail[k] == r[j];
          }
        }
      } else if keys[0] != name {
        forall j | 0 <= j < |keys| ensures Above(name, keys[j]) {
          if j > 0 { AboveTransitive(name, keys[0], keys[j]); }
        }
      }
    }
  }

  /** The keys are listed once each, from the last to the first in byte order. */
  lemma {:induction false} SortedKeysDescend(fields: seq<Field>)
    ensures Descending(SortedKeys(fields))
    ensures forall k :: k in SortedKeys(fields) <==> Lookup(fields, k).Some?
  {
    if fields != [] {
      SortedKeysDescend(fields[1..]);
      hide Descending;
      InsertKeyDescends(SortedKeys(fields[1..]), fields[0].name);
    }
  }

  /** Whatever order a Go map yields its keys in, sorting them gives this list. */
  lemma {:induction false} SortedListIsUnique(a: seq<string>, b: seq<string>)
    requires Descending(a) && Descending(b) && forall k :: k in a <==> k in b
    ensures a == b
  {
    hide Above;
    if a == [] {
      SomeMember(b);
    } else {
      assert a[0] in b && (b != [] ==> b[0] in a);
      TopKey(a, b);
      HeadOnce(a);
      HeadOnce(b);
      SortedListIsUnique(a[1..], b[1..]);
      assert a == [a[0]] + a[1..] && b == [b[0]] + b[1..];
    }
  }

  lemma SomeMember(a: seq<string>)
    ensures a == [] || exists k :: k in a
  {
    if a != [] { assert a[0] in a; }
  }

  lemma HeadOnce(a: seq<string>)
    requires Descending(a) && a != []
    ensures forall k :: k in a[1..] <==> k in a && k != a[0]
  {
    hide Above;
    AboveTotal(a[0], a[0]);
    assert a == [a[0]] + a[1..];
  }

  lemma TopKey(a: seq<string>, b: seq<string>)
    requires Descending(a) && Descending(b) && a != [] && b != [] && a[0] in b && b[0] in a
    ensures a[0] == b[0]
  {
    hide Above;
    if a[0] != b[0] {
      var i :| 0 <= i < |b| && b[i] == a[0];
      var j :| 0 <= j < |a| && a[j] == b[0];
      AboveTransitive(a[0], b[0], a[0]);
      AboveTotal(a[0], a[0]);
    }
  }
}
