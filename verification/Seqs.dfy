/** Sequence vocabulary shared by the models: splitting and joining at a
    separator, the order of byte strings, and sums over finite sets. A byte
    string is a `string` whose characters stand for the bytes. */
module Seqs {

  datatype Option<+T> = None | Some(value: T)

  datatype Result<+T, +E> = Ok(value: T) | Err(error: E)

  /** The pieces between the separators: always at least one. */
  function Split(s: string, sep: char): (parts: seq<string>)
    ensures |parts| >= 1
  {
    if s == [] then [[]]
    else
      var rest := Split(s[1..], sep);
      if s[0] == sep then [[]] + rest else [[s[0]] + rest[0]] + rest[1..]
  }

  function Join(parts: seq<string>, sep: char): (s: string)
  {
    if parts == [] then [] else if |parts| == 1 then parts[0]
    else parts[0] + [sep] + Join(parts[1..], sep)
  }

  lemma {:induction false} SplitPrepend(head: string, rest: string, sep: char)
    requires sep !in head
    ensures Split(head + [sep] + rest, sep) == [head] + Split(rest, sep)
    ensures Split(head, sep) == [head]
  {
    if head == [] {
      assert head + [sep] + rest == [sep] + rest;
      assert ([sep] + rest)[1..] == rest;
    } else {
      SplitPrepend(head[1..], rest, sep);
      var whole := head + [sep] + rest;
      assert whole[1..] == head[1..] + [sep] + rest;
      assert [head[0]] + head[1..] == head;
    }
  }

  /** Splitting undoes joining when no piece holds the separator. */
  lemma {:induction false} SplitJoin(parts: seq<string>, sep: char)
    requires parts != []
    requires forall p :: p in parts ==> sep !in p
    ensures Split(Join(parts, sep), sep) == parts
  {
    if |parts| == 1 {
      SplitPrepend(parts[0], [], sep);
      assert [parts[0]] == parts;
    } else {
      SplitJoin(parts[1..], sep);
      SplitPrepend(parts[0], Join(parts[1..], sep), sep);
      assert [parts[0]] + parts[1..] == parts;
    }
  }

  /** Joining undoes splitting, and no piece holds the separator. */
  lemma {:induction false} JoinSplit(s: string, sep: char)
    ensures Join(Split(s, sep), sep) == s
    ensures forall p :: p in Split(s, sep) ==> sep !in p
  {
    if s != [] {
      JoinSplit(s[1..], sep);
      var rest := Split(s[1..], sep);
      var parts := Split(s, sep);
      assert [s[0]] + s[1..] == s;
      if s[0] == sep {
        assert parts[1..] == rest;
      } else if |rest| > 1 {
        assert parts[1..] == rest[1..];
      }
    }
  }

  /** Join determines its pieces when no piece holds the separator. */
  lemma JoinInjective(a: seq<string>, b: seq<string>, sep: char)
    requires a != [] && b != []
    requires forall p :: p in a ==> sep !in p
    requires forall p :: p in b ==> sep !in p
    requires Join(a, sep) == Join(b, sep)
    ensures a == b
  {
    SplitJoin(a, sep);
    SplitJoin(b, sep);
  }

  /** The pieces of a POSIX path that name something. */
  function Kept(pieces: seq<string>): (parts: seq<string>)
  {
    if pieces == [] then []
    else (if pieces[0] == "" || pieces[0] == "." then [] else [pieces[0]]) + Kept(pieces[1..])
  }

  lemma {:induction false} KeptPieces(pieces: seq<string>)
    ensures forall p :: p in Kept(pieces) ==> p in pieces
  {
    if pieces != [] { KeptPieces(pieces[1..]); }
  }

  lemma {:induction false} KeptAll(parts: seq<string>)
    requires forall p :: p in parts ==> p != "" && p != "."
    ensures Kept(parts) == parts
  {
    if parts != [] {
      assert parts[0] in parts && forall p :: p in parts[1..] ==> p in parts;
      KeptAll(parts[1..]);
      assert parts == [parts[0]] + parts[1..];
    }
  }

  lemma {:induction false} JoinEnds(parts: seq<string>)
    requires parts != [] && forall p :: p in parts ==> p != "" && '/' !in p
    ensures var s := Join(parts, '/'); s != [] && s[0] != '/' && s[|s| - 1] != '/'
  {
    assert parts[0] in parts && parts[0][0] in parts[0] && parts[0][|parts[0]| - 1] in parts[0];
    if |parts| > 1 {
      assert forall p :: p in parts[1..] ==> p in parts;
      JoinEnds(parts[1..]);
    }
  }

  /** The characters `str.strip` removes. */
  predicate IsSpace(c: char)
  {
    var n := c as int;
    || 0x09 <= n <= 0x0D || 0x1C <= n <= 0x20 || n == 0x85 || n == 0xA0 || n == 0x1680
    || 0x2000 <= n <= 0x200A || n == 0x2028 || n == 0x2029 || n == 0x202F || n == 0x205F || n == 0x3000
  }

  function StripLeft(s: string): (r: string)
  {
    if s != [] && IsSpace(s[0]) then StripLeft(s[1..]) else s
  }

  predicate Contains(s: string, piece: string)
  {
    exists i :: 0 <= i <= |s| && piece <= s[i..]
  }

  /** ASCII letters in lower case. */
  function Lower(s: string): (r: string)
    ensures |r| == |s|
  {
    if s == [] then []
    else [if 'A' <= s[0] <= 'Z' then s[0] - 'A' + 'a' else s[0]] + Lower(s[1..])
  }

  lemma {:induction false} LowerAt(s: string, i: nat)
    requires i < |s|
    ensures Lower(s)[i] == if 'A' <= s[i] <= 'Z' then s[i] - 'A' + 'a' else s[i]
  {
    if i > 0 { LowerAt(s[1..], i - 1); }
  }

  /** Case aside two texts are equal exactly when their characters are. */
  /** The length of a text in UTF-8. */
  function Utf8Bytes(s: string): nat
  {
    if s == [] then 0
    else
      var c := s[0] as int;
      (if c < 0x80 then 1 else if c < 0x800 then 2 else if c < 0x1_0000 then 3 else 4) + Utf8Bytes(s[1..])
  }

  /** Strict lexicographic order, a proper prefix first. */
  predicate Less(a: string, b: string)
  {
    b != [] && (a == [] || a[0] < b[0] || (a[0] == b[0] && Less(a[1..], b[1..])))
  }

  lemma {:induction false} LessTotal(a: string, b: string)
    ensures Less(a, b) || a == b || Less(b, a)
    ensures !(Less(a, b) && Less(b, a))
    ensures !Less(a, a)
  {
    if a != [] && b != [] {
      LessTotal(a[1..], b[1..]);
      assert a == [a[0]] + a[1..];
      assert b == [b[0]] + b[1..];
    }
    if a != [] { LessTotal(a[1..], a[1..]); }
  }

  lemma {:induction false} LessTransitive(a: string, b: string, c: string)
    requires Less(a, b) && Less(b, c)
    ensures Less(a, c)
  {
    if a != [] && a[0] == b[0] && b[0] == c[0] {
      LessTransitive(a[1..], b[1..], c[1..]);
    }
  }

  ghost predicate Ascending<T>(s: seq<T>, key: T -> string)
  {
    forall i, j :: 0 <= i < j < |s| ==> Less(key(s[i]), key(s[j]))
  }

  lemma EmptyTogether<T>(a: seq<T>, b: seq<T>)
    requires forall x :: x in a <==> x in b
    ensures a == [] <==> b == []
  {
    if a != [] { assert a[0] in a; }
    if b != [] { assert b[0] in b; }
  }

  /** A strictly ascending listing is determined by the set it lists. */
  lemma {:induction false} AscendingUnique<T>(a: seq<T>, b: seq<T>, key: T -> string)
    requires Ascending(a, key) && Ascending(b, key)
    requires forall x :: x in a <==> x in b
    ensures a == b
  {
    EmptyTogether(a, b);
    if a != [] {
      assert a[0] in b;
      assert b[0] in a;
      var i :| 0 <= i < |a| && a[i] == b[0];
      var j :| 0 <= j < |b| && b[j] == a[0];
      assert i == 0 || Less(key(a[0]), key(b[0]));
      assert j == 0 || Less(key(b[0]), key(a[0]));
      LessTotal(key(a[0]), key(b[0]));
      AscendingTail(a, b, key);
      AscendingTail(b, a, key);
      AscendingUnique(a[1..], b[1..], key);
      assert a == [a[0]] + a[1..];
      assert b == [b[0]] + b[1..];
    }
  }

  lemma AscendingTail<T>(a: seq<T>, b: seq<T>, key: T -> string)
    requires a != [] && b != [] && a[0] == b[0]
    requires Ascending(a, key)
    requires forall x :: x in a ==> x in b
    ensures Ascending(a[1..], key)
    ensures forall x :: x in a[1..] ==> x in b[1..]
  {
    forall x | x in a[1..] ensures x in b[1..] {
      var i :| 0 <= i < |a| - 1 && a[1..][i] == x;
      assert a[i + 1] == x && Less(key(a[0]), key(a[i + 1]));
      LessTotal(key(x), key(x));
      assert a[i + 1] in a;
      assert x in b;
      var j :| 0 <= j < |b| && b[j] == x;
      assert j > 0;
      assert b[1..][j - 1] == x;
    }
  }

  lemma InsertAscending<T>(sorted: seq<T>, k: nat, e: T, key: T -> string)
    requires Ascending(sorted, key) && k <= |sorted|
    requires forall i :: 0 <= i < |sorted| ==> key(sorted[i]) != key(e)
    requires forall i :: 0 <= i < k ==> Less(key(sorted[i]), key(e))
    requires k < |sorted| ==> !Less(key(sorted[k]), key(e))
    ensures Ascending(sorted[..k] + [e] + sorted[k..], key)
    ensures forall g :: g in sorted[..k] + [e] + sorted[k..] <==> g in sorted || g == e
    ensures multiset(sorted[..k] + [e] + sorted[k..]) == multiset(sorted) + multiset{e}
  {
    hide Less;
    var now := sorted[..k] + [e] + sorted[k..];
    assert sorted == sorted[..k] + sorted[k..];
    forall i, j | 0 <= i < j < |now| ensures Less(key(now[i]), key(now[j])) {
      var from := if i <= k then i else i - 1;
      if j < k {
        assert Less(key(sorted[i]), key(sorted[j]));
      } else if j == k {
        assert now[i] == sorted[i] && now[j] == e;
      } else if i == k {
        LessTotal(key(e), key(sorted[k]));
        if j - 1 > k {
          assert Less(key(sorted[k]), key(sorted[j - 1]));
          LessTransitive(key(e), key(sorted[k]), key(sorted[j - 1]));
        }
      } else {
        assert Less(key(sorted[from]), key(sorted[j - 1]));
      }
    }
  }

  lemma PlaceOf<T>(sorted: seq<T>, e: T, key: T -> string) returns (k: nat)
    ensures k <= |sorted|
    ensures forall i :: 0 <= i < k ==> Less(key(sorted[i]), key(e))
    ensures k < |sorted| ==> !Less(key(sorted[k]), key(e))
  {
    k := 0;
    while k < |sorted| && Less(key(sorted[k]), key(e))
      invariant k <= |sorted|
      invariant forall i :: 0 <= i < k ==> Less(key(sorted[i]), key(e))
    {
      k := k + 1;
    }
  }

  /** Sorting by a key that tells the items apart. */
  method SortBy<T>(items: seq<T>, key: T -> string) returns (sorted: seq<T>)
    requires forall i, j :: 0 <= i < j < |items| ==> key(items[i]) != key(items[j])
    ensures Ascending(sorted, key)
    ensures forall x :: x in sorted <==> x in items
    ensures multiset(sorted) == multiset(items)
  {
    hide Less;
    sorted := [];
    for i := 0 to |items|
      invariant Ascending(sorted, key)
      invariant multiset(sorted) == multiset(items[..i])
      invariant forall x :: x in sorted <==> x in items[..i]
    {
      var k := 0;
      while k < |sorted| && Less(key(sorted[k]), key(items[i]))
        invariant k <= |sorted|
        invariant forall j :: 0 <= j < k ==> Less(key(sorted[j]), key(items[i]))
      {
        k := k + 1;
      }
      forall j | 0 <= j < |sorted| ensures key(sorted[j]) != key(items[i]) {
        assert sorted[j] in sorted;
        var m :| 0 <= m < i && items[..i][m] == sorted[j];
      }
      InsertAscending(sorted, k, items[i], key);
      assert items[..i + 1] == items[..i] + [items[i]];
      sorted := sorted[..k] + [items[i]] + sorted[k..];
    }
    assert items[..|items|] == items;
  }

  // ----- Stable sorting -----

  /** The items with one key, in their order. */
  function Keyed<T>(s: seq<T>, key: T -> string, k: string): (items: seq<T>)
  {
    if s == [] then []
    else Keyed(s[..|s| - 1], key, k) + (if key(s[|s| - 1]) == k then [s[|s| - 1]] else [])
  }

  ghost predicate Ordered<T>(s: seq<T>, key: T -> string)
  {
    forall i, j :: 0 <= i < j < |s| ==> !Less(key(s[j]), key(s[i]))
  }

  /** Ordered by key, items with equal keys as they came. */
  ghost predicate StablySorted<T>(sorted: seq<T>, items: seq<T>, key: T -> string)
  {
    Ordered(sorted, key) && forall k :: Keyed(sorted, key, k) == Keyed(items, key, k)
  }

  lemma {:induction false} KeyedConcat<T>(a: seq<T>, b: seq<T>, key: T -> string, k: string)
    ensures Keyed(a + b, key, k) == Keyed(a, key, k) + Keyed(b, key, k)
    decreases |b|
  {
    if b == [] {
      assert a + b == a;
    } else {
      assert (a + b)[..|a + b| - 1] == a + b[..|b| - 1];
      KeyedConcat(a, b[..|b| - 1], key, k);
    }
  }

  lemma {:induction false} KeyedNone<T>(s: seq<T>, key: T -> string, k: string)
    requires forall i :: 0 <= i < |s| ==> key(s[i]) != k
    ensures Keyed(s, key, k) == []
  {
    if s != [] { KeyedNone(s[..|s| - 1], key, k); }
  }

  lemma {:induction false} KeyedMember<T>(s: seq<T>, key: T -> string, k: string, x: T)
    ensures x in Keyed(s, key, k) <==> x in s && key(x) == k
  {
    if s != [] {
      KeyedMember(s[..|s| - 1], key, k, x);
      assert s == s[..|s| - 1] + [s[|s| - 1]];
    }
  }

  lemma InsertOrdered<T>(sorted: seq<T>, p: nat, e: T, key: T -> string)
    requires Ordered(sorted, key) && p <= |sorted|
    requires forall j :: 0 <= j < p ==> !Less(key(e), key(sorted[j]))
    requires p < |sorted| ==> Less(key(e), key(sorted[p]))
    ensures Ordered(sorted[..p] + [e] + sorted[p..], key)
    ensures forall j :: p <= j < |sorted| ==> Less(key(e), key(sorted[j]))
  {
    hide Less;
    forall j | p <= j < |sorted| ensures Less(key(e), key(sorted[j])) {
      if j > p { LessThrough(key(e), key(sorted[p]), key(sorted[j])); }
    }
    forall j | p <= j < |sorted| ensures !Less(key(sorted[j]), key(e)) { LessTotal(key(e), key(sorted[j])); }
    var grown := sorted[..p] + [e] + sorted[p..];
    assert forall i :: 0 <= i < |grown| ==> grown[i] == if i < p then sorted[i] else if i == p then e else sorted[i - 1];
  }

  lemma LessThrough(a: string, b: string, c: string)
    requires Less(a, b) && !Less(c, b)
    ensures Less(a, c)
  {
    LessTotal(b, c);
    if Less(b, c) { LessTransitive(a, b, c); }
  }

  lemma KeyedInsert<T>(sorted: seq<T>, p: nat, e: T, key: T -> string, k: string)
    requires p <= |sorted| && forall j :: p <= j < |sorted| ==> key(sorted[j]) != key(e)
    ensures Keyed(sorted[..p] + [e] + sorted[p..], key, k) == Keyed(sorted, key, k) + if key(e) == k then [e] else []
  {
    KeyedConcat(sorted[..p] + [e], sorted[p..], key, k);
    KeyedConcat(sorted[..p], [e], key, k);
    KeyedConcat(sorted[..p], sorted[p..], key, k);
    assert sorted[..p] + sorted[p..] == sorted;
    assert [e][..0] == [] && Keyed([], key, k) == [];
    if key(e) == k { KeyedNone(sorted[p..], key, k); }
  }

  /** A stable sort by key. */
  method StableSortBy<T>(items: seq<T>, key: T -> string) returns (sorted: seq<T>)
    ensures StablySorted(sorted, items, key)
  {
    hide Less, Keyed;
    sorted := [];
    for i := 0 to |items|
      invariant StablySorted(sorted, items[..i], key)
    {
      var p := 0;
      while p < |sorted| && !Less(key(items[i]), key(sorted[p]))
        invariant p <= |sorted|
        invariant forall j :: 0 <= j < p ==> !Less(key(items[i]), key(sorted[j]))
      {
        p := p + 1;
      }
      InsertOrdered(sorted, p, items[i], key);
      ghost var before := sorted;
      sorted := sorted[..p] + [items[i]] + sorted[p..];
      forall k ensures Keyed(sorted, key, k) == Keyed(items[..i + 1], key, k) {
        LessIrreflexive(before, p, items[i], key);
        KeyedInsert(before, p, items[i], key, k);
        KeyedSnoc(items, i, key, k);
      }
    }
    assert items[..|items|] == items;
  }

  lemma LessIrreflexive<T>(sorted: seq<T>, p: nat, e: T, key: T -> string)
    requires forall j :: p <= j < |sorted| ==> Less(key(e), key(sorted[j]))
    ensures forall j :: p <= j < |sorted| ==> key(sorted[j]) != key(e)
  {
    LessTotal(key(e), key(e));
  }

  lemma KeyedSnoc<T>(items: seq<T>, i: nat, key: T -> string, k: string)
    requires i < |items|
    ensures Keyed(items[..i + 1], key, k) == Keyed(items[..i], key, k) + if key(items[i]) == k then [items[i]] else []
  {
    assert items[..i + 1][..i] == items[..i];
  }

  /** What is stably sorted is determined by the items of each key. */
  lemma {:induction false} StablySortedUnique<T>(a: seq<T>, b: seq<T>, key: T -> string)
    requires Ordered(a, key) && Ordered(b, key) && forall k :: Keyed(a, key, k) == Keyed(b, key, k)
    ensures a == b
  {
    hide Less, Ordered;
    forall x ensures x in a <==> x in b {
      KeyedMember(a, key, key(x), x);
      KeyedMember(b, key, key(x), x);
    }
    EmptyTogether(a, b);
    if a != [] {
      var x, y := a[|a| - 1], b[|b| - 1];
      LastIsGreatest(a, key, y);
      LastIsGreatest(b, key, x);
      LessTotal(key(x), key(y));
      var shortA, shortB := a[..|a| - 1], b[..|b| - 1];
      forall k ensures Keyed(shortA, key, k) == Keyed(shortB, key, k) { KeyedLast(a, b, key, k); }
      KeyedLast(a, b, key, key(x));
      OrderedShorter(a, key);
      OrderedShorter(b, key);
      StablySortedUnique(shortA, shortB, key);
      assert a == shortA + [x] && b == shortB + [y];
    }
  }

  lemma LastIsGreatest<T>(s: seq<T>, key: T -> string, x: T)
    requires Ordered(s, key) && x in s
    ensures !Less(key(s[|s| - 1]), key(x))
  {
    var i :| 0 <= i < |s| && s[i] == x;
    if i == |s| - 1 { LessTotal(key(x), key(x)); }
  }

  lemma OrderedShorter<T>(s: seq<T>, key: T -> string)
    requires s != [] && Ordered(s, key)
    ensures Ordered(s[..|s| - 1], key)
  {
    hide Less;
  }

  lemma KeyedLast<T>(a: seq<T>, b: seq<T>, key: T -> string, k: string)
    requires a != [] && b != [] && key(a[|a| - 1]) == key(b[|b| - 1]) && Keyed(a, key, k) == Keyed(b, key, k)
    ensures Keyed(a[..|a| - 1], key, k) == Keyed(b[..|b| - 1], key, k)
    ensures k == key(a[|a| - 1]) ==> a[|a| - 1] == b[|b| - 1]
  {
    var ka, kb := Keyed(a, key, k), Keyed(b, key, k);
    if key(a[|a| - 1]) == k {
      assert ka[..|ka| - 1] == Keyed(a[..|a| - 1], key, k) && ka[|ka| - 1] == a[|a| - 1];
      assert kb[..|kb| - 1] == Keyed(b[..|b| - 1], key, k) && kb[|kb| - 1] == b[|b| - 1];
    } else {
      assert ka == Keyed(a[..|a| - 1], key, k) && kb == Keyed(b[..|b| - 1], key, k);
    }
  }

  /** The members of a set in ascending order. */
  method SortedNames(keys: set<string>) returns (names: seq<string>)
    ensures Ascending(names, (t: string) => t)
    ensures forall t :: t in names <==> t in keys
  {
    var items: seq<string> := [];
    var pending := keys;
    while pending != {}
      invariant pending <= keys
      invariant forall t :: t in items <==> t in keys && t !in pending
      invariant forall i, j :: 0 <= i < j < |items| ==> items[i] != items[j]
    {
      var t :| t in pending;
      items, pending := items + [t], pending - {t};
    }
    names := SortBy(items, (t: string) => t);
  }

  /** The sum of `f` over a finite set. */
  ghost function SumOver<T>(s: set<T>, f: T -> nat): (total: nat)
  {
    if s == {} then 0 else
    var x :| x in s;
    f(x) + SumOver(s - {x}, f)
  }

  /** Any element may be summed first. */
  lemma {:induction false} SumTake<T>(s: set<T>, f: T -> nat, x: T)
    requires x in s
    ensures SumOver(s, f) == f(x) + SumOver(s - {x}, f)
    decreases |s|
  {
    var y :| y in s && SumOver(s, f) == f(y) + SumOver(s - {y}, f);
    if x != y {
      SumTake(s - {y}, f, x);
      SumTake(s - {x}, f, y);
      assert s - {y} - {x} == s - {x} - {y};
    }
  }

  lemma {:induction false} SumDisjoint<T>(a: set<T>, b: set<T>, f: T -> nat)
    requires a !! b
    ensures SumOver(a + b, f) == SumOver(a, f) + SumOver(b, f)
    decreases |a|
  {
    if a == {} {
      assert a + b == b;
    } else {
      var x :| x in a;
      SumDisjoint(a - {x}, b, f);
      SumTake(a, f, x);
      SumTake(a + b, f, x);
      assert a + b - {x} == (a - {x}) + b;
    }
  }

  /** Text up to the first delimiter is determined by the whole. */
  lemma DelimitedInjective(a: string, x: string, b: string, y: string, c: char)
    requires c !in a && c !in b && a + [c] + x == b + [c] + y
    ensures a == b && x == y
  {
    SplitPrepend(a, x, c);
    SplitPrepend(b, y, c);
    var whole := a + [c] + x;
    assert Split(whole, c)[0] == a && Split(whole, c)[0] == b;
    assert x == whole[|a| + 1..] && y == (b + [c] + y)[|b| + 1..];
  }

  const CAPITALS := "ABCDEFGHIJKLMNOPQRSTUVWXYZ"
  const SMALL_LETTERS := "abcdefghijklmnopqrstuvwxyz"
  const DECIMAL_DIGITS := "0123456789"

  lemma CapitalsAre(c: char)
    ensures 'A' <= c <= 'Z' <==> c in CAPITALS
  {
    if 'A' <= c <= 'Z' { assert CAPITALS[(c - 'A') as nat] == c; }
  }

  lemma SmallLettersAre(c: char)
    ensures 'a' <= c <= 'z' <==> c in SMALL_LETTERS
  {
    if 'a' <= c <= 'z' { assert SMALL_LETTERS[(c - 'a') as nat] == c; }
  }

  lemma DigitsAre(c: char)
    ensures '0' <= c <= '9' <==> c in DECIMAL_DIGITS
  {
    if '0' <= c <= '9' { assert DECIMAL_DIGITS[(c - '0') as nat] == c; }
  }
}
