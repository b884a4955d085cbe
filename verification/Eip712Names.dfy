/** How the names of EIP-712 types are made out of field names. */
module Eip712Names {
  import opened Json

  const ROOT_PREFIX := "_"
  const TYPE_PREFIX := "Type"

  /** strings.Split with a separator of one character. */
  function Split(s: string, sep: char): (parts: seq<string>)
    ensures parts != []
  {
    if s == [] then [[]]
    else if s[0] == sep then [[]] + Split(s[1..], sep)
    else
      var rest := Split(s[1..], sep);
      [[s[0]] + rest[0]] + rest[1..]
  }

  function Join(parts: seq<string>): string {
    if parts == [] then [] else Join(parts[..|parts| - 1]) + parts[|parts| - 1]
  }

  /** The title caser on a word of letters and digits: only the first letter changes. */
  function Title(word: string): (r: string)
    ensures |r| == |word|
  {
    if word != [] && 'a' <= word[0] <= 'z' then [word[0] - 'a' + 'A'] + word[1..] else word
  }

  function Titles(words: seq<string>): (r: seq<string>)
    ensures |r| == |words| && forall i :: 0 <= i < |words| ==> r[i] == Title(words[i])
  {
    seq(|words|, i requires 0 <= i < |words| => Title(words[i]))
  }

  function SanitizedPart(part: string): string {
    if part == ROOT_PREFIX then TYPE_PREFIX else Join(Titles(Split(part, '_')))
  }

  function SanitizedParts(parts: seq<string>): (r: seq<string>)
    ensures |r| == |parts| && forall i :: 0 <= i < |parts| ==> r[i] == SanitizedPart(parts[i])
  {
    seq(|parts|, i requires 0 <= i < |parts| => SanitizedPart(parts[i]))
  }

  function Sanitized(str: string): string { Join(SanitizedParts(Split(str, '.'))) }

  lemma JoinStep(parts: seq<string>, i: nat)
    requires i < |parts|
    ensures Join(parts[..i + 1]) == Join(parts[..i]) + parts[i]
    ensures parts[..|parts|] == parts
  {
    assert parts[..i + 1][..i] == parts[..i];
  }

  lemma Associative(a: string, b: string, c: string)
    ensures (a + b) + c == a + (b + c)
  {}

  /** The inner loop of sanitizeTypedef. */
  method WriteTitles(buf: string, subparts: seq<string>) returns (buf': string)
    ensures buf' == buf + Join(Titles(subparts))
  {
    ghost var titles := Titles(subparts);
    assert Join(titles[..0]) == [];
    hide Join, Title, Titles;
    buf' := buf;
    for j := 0 to |subparts|
      invariant buf' == buf + Join(titles[..j])
    {
      JoinStep(titles, j);
      Associative(buf, Join(titles[..j]), titles[j]);
      buf' := buf' + Title(subparts[j]);
    }
    assert titles[..|subparts|] == titles;
  }

  /** sanitizeTypedef */
  method SanitizeTypedef(str: string) returns (buf: string)
    ensures buf == Sanitized(str)
  {
    buf := "";
    var parts := Split(str, '.');
    assert SanitizedParts(parts)[..0] == [];
    for i := 0 to |parts|
      invariant buf == Join(SanitizedParts(parts)[..i])
    {
      hide Join, Titles, Split;
      JoinStep(SanitizedParts(parts), i);
      var part := parts[i];
      if part == ROOT_PREFIX {
        buf := buf + TYPE_PREFIX;
        continue;
      }
      buf := WriteTitles(buf, Split(part, '_'));
    }
    assert SanitizedParts(parts)[..|parts|] == SanitizedParts(parts);
  }

  predicate Lacks(s: string, c: char) { forall i :: 0 <= i < |s| ==> s[i] != c }

  lemma {:induction false} SplitParts(s: string, sep: char, c: char)
    ensures forall i :: 0 <= i < |Split(s, sep)| ==> Lacks(Split(s, sep)[i], sep)
    ensures Lacks(s, c) ==> forall i :: 0 <= i < |Split(s, sep)| ==> Lacks(Split(s, sep)[i], c)
    ensures Lacks(s, sep) ==> Split(s, sep) == [s]
  {
    if s != [] {
      SplitParts(s[1..], sep, c);
      assert [s[0]] + s[1..] == s;
      assert Lacks(s, sep) ==> Lacks(s[1..], sep);
      assert Lacks(s, c) ==> Lacks(s[1..], c);
      var rest, parts := Split(s[1..], sep), Split(s, sep);
      forall i | 0 <= i < |parts| ensures Lacks(parts[i], sep) && (Lacks(s, c) ==> Lacks(parts[i], c)) {
        if s[0] != sep {
          assert Lacks(rest[i], sep) && (Lacks(s, c) ==> Lacks(rest[i], c));
        } else if i > 0 {
          assert Lacks(rest[i - 1], sep) && (Lacks(s, c) ==> Lacks(rest[i - 1], c));
        }
      }
    }
  }

  /** A part ends at the first separator, and the rest is split in the same way. */
  lemma {:induction false} SplitFirst(a: string, b: string, sep: char)
    requires Lacks(a, sep)
    ensures Split(a + [sep] + b, sep) == [a] + Split(b, sep)
  {
    var s := a + [sep] + b;
    if a == [] {
      assert s[1..] == b;
    } else {
      assert s[1..] == a[1..] + [sep] + b && s[0] == a[0];
      assert Lacks(a[1..], sep);
      SplitFirst(a[1..], b, sep);
      assert [a[0]] + a[1..] == a;
    }
  }

  /** What follows the last separator is the last part. */
  lemma {:induction false} SplitLast(a: string, b: string, sep: char)
    requires Lacks(b, sep)
    ensures Split(b, sep) == [b]
    ensures var parts := Split(a + [sep] + b, sep); parts[|parts| - 1] == b
  {
    SplitParts(b, sep, sep);
    var s := a + [sep] + b;
    if a == [] {
      assert s[1..] == b;
    } else {
      SplitLast(a[1..], b, sep);
      assert s[1..] == a[1..] + [sep] + b;
      var rest := Split(s[1..], sep);
      assert |rest| > 1 by {
        if |rest| == 1 { SplitHasTwo(a[1..], b, sep); }
      }
    }
  }

  lemma {:induction false} SplitHasTwo(a: string, b: string, sep: char)
    ensures |Split(a + [sep] + b, sep)| >= 2
  {
    var s := a + [sep] + b;
    if a == [] {
      assert s[1..] == b;
    } else {
      SplitHasTwo(a[1..], b, sep);
      assert s[1..] == a[1..] + [sep] + b;
    }
  }

  /** The title of a word differs in its first letter only, which is no small letter any more. */
  lemma TitleLaw(word: string)
    requires word != []
    ensures Title(word)[1..] == word[1..]
    ensures Title(word)[0] as int == if 97 <= word[0] as int <= 122 then word[0] as int - 32 else word[0] as int
  {}

  lemma OneWord(a: string)
    requires Lacks(a, '_')
    ensures SanitizedPart(a) == Title(a)
  {
    assert ROOT_PREFIX[0] == '_';
    SplitParts(a, '_', '_');
    hide Split;
    JoinOne(Title(a));
    assert Titles([a]) == [Title(a)];
  }

  lemma TwoWords(a: string, b: string)
    requires Lacks(a, '_') && Lacks(b, '_') && a != [] && b != []
    ensures SanitizedPart(a + ['_'] + b) == Title(a) + Title(b)
  {
    assert |a + ['_'] + b| > 1;
    SplitFirst(a, b, '_');
    SplitParts(b, '_', '_');
    hide Split, Title;
    assert [a] + [b] == [a, b];
    JoinTwo(Title(a), Title(b));
    assert Titles([a, b]) == [Title(a), Title(b)];
  }

  lemma ThreeParts(a: string, b: string, c: string)
    requires Lacks(a, '.') && Lacks(b, '.') && Lacks(c, '.')
    ensures Sanitized(a + ['.'] + (b + ['.'] + c)) == SanitizedPart(a) + SanitizedPart(b) + SanitizedPart(c)
  {
    SplitFirst(a, b + ['.'] + c, '.');
    SplitFirst(b, c, '.');
    SplitParts(c, '.', '.');
    assert [a] + ([b] + [c]) == [a, b, c];
    hide Split, SanitizedPart, Join;
    assert Sanitized(a + ['.'] + (b + ['.'] + c)) == Join(SanitizedParts([a, b, c]));
    hide Sanitized;
    var parts := SanitizedParts([a, b, c]);
    assert parts == [SanitizedPart(a), SanitizedPart(b), SanitizedPart(c)];
    hide SanitizedParts;
    JoinTwo(parts[0], parts[1]);
    JoinStep(parts, 2);
    assert parts[..2] == [parts[0], parts[1]];
  }

  /** The name of an object found under the fields a_b and c of a message: Type, then the words with capital initials. */
  lemma SanitizedWords(a: string, b: string, c: string)
    requires a != [] && b != [] && c != []
    requires Lacks(a, '.') && Lacks(b, '.') && Lacks(c, '.') && Lacks(a, '_') && Lacks(b, '_') && Lacks(c, '_')
    ensures Sanitized(['_'] + ['.'] + ((a + ['_'] + b) + ['.'] + c)) == "Type" + (Title(a) + Title(b)) + Title(c)
  {
    TwoWords(a, b);
    OneWord(c);
    ThreeParts(['_'], a + ['_'] + b, c);
    assert SanitizedPart(['_']) == "Type";
    hide Sanitized, SanitizedPart, Title;
  }

  lemma JoinOne(a: string)
    ensures Join([a]) == a
  {
    assert [a][..0] == [];
  }

  lemma JoinTwo(a: string, b: string)
    ensures Join([a, b]) == a + b
  {
    JoinOne(a);
    assert [a, b][..1] == [a];
  }

  lemma {:induction false} JoinLacks(parts: seq<string>, c: char)
    requires forall i :: 0 <= i < |parts| ==> Lacks(parts[i], c)
    ensures Lacks(Join(parts), c)
  {
    if parts != [] {
      JoinLacks(parts[..|parts| - 1], c);
      assert Lacks(parts[|parts| - 1], c);
    }
  }

  lemma PartLacks(part: string)
    requires Lacks(part, '.')
    ensures Lacks(SanitizedPart(part), '.') && Lacks(SanitizedPart(part), '_')
  {
    SplitParts(part, '_', '.');
    var words := Split(part, '_');
    JoinLacks(Titles(words), '.');
    JoinLacks(Titles(words), '_');
  }

  lemma SanitizedLacks(str: string)
    ensures Lacks(Sanitized(str), '.') && Lacks(Sanitized(str), '_')
  {
    var parts := Split(str, '.');
    SplitParts(str, '.', '.');
    forall i | 0 <= i < |parts| ensures Lacks(SanitizedPart(parts[i]), '.') && Lacks(SanitizedPart(parts[i]), '_') {
      PartLacks(parts[i]);
    }
    hide SanitizedPart;
    JoinLacks(SanitizedParts(parts), '.');
    JoinLacks(SanitizedParts(parts), '_');
  }

  /** The prefix of an object: "_" for the message, "_.a.b" for what is found under a and b. */
  predicate IsPrefix(prefix: string) { prefix == ROOT_PREFIX || (|prefix| >= 2 && prefix[..2] == "_.") }

  predicate StartsWithType(s: string) { |s| >= 4 && s[..4] == TYPE_PREFIX }

  lemma {:induction false} JoinStarts(parts: seq<string>)
    requires parts != []
    ensures parts[0] <= Join(parts)
  {
    if |parts| == 1 {
      assert Join(parts[..0]) == [];
    } else {
      JoinStarts(parts[..|parts| - 1]);
    }
  }

  lemma SanitizedStarts(prefix: string)
    requires IsPrefix(prefix)
    ensures StartsWithType(Sanitized(prefix))
  {
    var parts := Split(prefix, '.');
    assert parts[0] == ROOT_PREFIX by {
      if prefix == ROOT_PREFIX {
        SplitParts(prefix, '.', '.');
      } else {
        assert prefix[1..][0] == '.';
        assert Split(prefix[1..], '.')[0] == [];
      }
    }
    JoinStarts(SanitizedParts(parts));
    var t := Sanitized(prefix);
    assert SanitizedParts(parts)[0] == TYPE_PREFIX;
    assert t[..4] == TYPE_PREFIX;
  }

  /** typeDefForPrefix */
  function TypeDefForPrefix(prefix: string, rootType: string): string {
    if prefix == ROOT_PREFIX then rootType else Sanitized(prefix)
  }

  /** prefixForSubField */
  function PrefixForSubField(prefix: string, fieldName: string): string { prefix + "." + fieldName }

  /** typeDefWithIndex */
  function TypeDefWithIndex(typeDef: string, index: nat): string { typeDef + Decimal(index) }

  lemma SubFieldPrefix(prefix: string, fieldName: string)
    requires IsPrefix(prefix)
    ensures IsPrefix(PrefixForSubField(prefix, fieldName)) && PrefixForSubField(prefix, fieldName) != ROOT_PREFIX
  {}

  /** Every name that is given to a type starts with Type and ends in a digit. */
  lemma NamesOfTypes(prefix: string, rootType: string, index: nat)
    requires IsPrefix(prefix) && StartsWithType(rootType)
    ensures var name := TypeDefWithIndex(TypeDefForPrefix(prefix, rootType), index);
            StartsWithType(name) && '0' <= name[|name| - 1] <= '9'
  {
    SanitizedStarts(prefix);
    DecimalParses(index);
    hide Sanitized;
    var name := TypeDefWithIndex(TypeDefForPrefix(prefix, rootType), index);
    assert name[..4] == TYPE_PREFIX;
  }

  /** The second sanitizing changes nothing in a name that was made for the object of a sub-field. */
  lemma SanitizeAgain(prefix: string, index: nat)
    requires IsPrefix(prefix)
    ensures Sanitized(TypeDefWithIndex(Sanitized(prefix), index)) == TypeDefWithIndex(Sanitized(prefix), index)
  {
    var base := Sanitized(prefix);
    var name := TypeDefWithIndex(base, index);
    SanitizedLacks(prefix);
    SanitizedStarts(prefix);
    DecimalParses(index);
    hide Sanitized, Decimal, Split;
    assert name[0] == base[..4][0] == 'T';
    assert Lacks(Decimal(index), '.') && Lacks(Decimal(index), '_');
    AlreadySanitized(name);
  }

  lemma AlreadySanitized(name: string)
    requires Lacks(name, '.') && Lacks(name, '_') && name != [] && !('a' <= name[0] <= 'z')
    ensures Sanitized(name) == name
  {
    SplitParts(name, '.', '.');
    SplitParts(name, '_', '_');
    hide Split;
    assert Join([name]) == name by { assert [name][..0] == []; }
    assert Titles([name]) == [name];
    assert SanitizedParts([name]) == [name];
  }
}
