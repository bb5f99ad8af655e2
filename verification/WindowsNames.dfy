/** The components of a path that Windows would change, refuse or protect. */
module WindowsNames {
  import opened Seqs

  const INVALID_CHARACTERS := {'<', '>', ':', '"', '\\', '|', '?', '*'}
  const DIGITS := {'0', '1', '2', '3', '4', '5', '6', '7', '8', '9'}
  const RESERVED_STEMS := {"con", "prn", "aux", "nul",
                           "com1", "com2", "com3", "com4", "com5", "com6", "com7", "com8", "com9",
                           "lpt1", "lpt2", "lpt3", "lpt4", "lpt5", "lpt6", "lpt7", "lpt8", "lpt9"}
  const PROTECTED_NAMES := {("gitmodules", "gi7eba"), ("gitattributes", "gi7d29"), ("gitignore", "gi250a"), ("mailmap", "maba30")}

  function UpTo(s: string, c: char): (r: string)
    ensures |r| <= |s|
  {
    if s == [] || s[0] == c then [] else [s[0]] + UpTo(s[1..], c)
  }

  function StripDotsAndSpaces(s: string): (r: string)
  {
    if s != [] && (s[|s| - 1] == ' ' || s[|s| - 1] == '.') then StripDotsAndSpaces(s[..|s| - 1]) else s
  }

  /** Eight characters that NTFS may give a control file as its short name. */
  predicate Imitates(candidate: string, name: string, fallback: string)
    requires |candidate| == 8 && '~' in candidate && |name| >= 6 && |fallback| >= 6
  {
    var tilde := |UpTo(candidate, '~')|;
    || (candidate[..6] == name[..6] && candidate[6] == '~' && candidate[7] in {'1', '2', '3', '4'})
    || (tilde <= 6 && candidate[..tilde] == fallback[..tilde] && candidate[tilde + 1] in DIGITS - {'0'} &&
        forall i :: tilde + 2 <= i < 8 ==> candidate[i] in DIGITS)
  }

  /** Git's protected 8.3 spellings of its control files. */
  predicate IsProtectedAlias(component: string)
  {
    var candidate := Lower(component);
    candidate == "git~1" ||
    (|candidate| == 8 && '~' in candidate &&
     exists name :: name in PROTECTED_NAMES && Imitates(candidate, name.0, name.1))
  }

  predicate IsReserved(stem: string) { stem in RESERVED_STEMS }

  predicate Dull(c: char) { c == ' ' || c == '.' }

  predicate Invalid(c: char) { c in INVALID_CHARACTERS }

  predicate BeyondAscii(c: char) { c as int < 32 || c as int > 127 }

  /** A character Windows drops at the end, refuses, or folds in its own way. */
  predicate Flawed(component: string)
  {
    || (component != [] && Dull(component[|component| - 1]))
    || (exists i :: 0 <= i < |component| && Invalid(component[i]))
    || (exists i :: 0 <= i < |component| && BeyondAscii(component[i]))
  }

  predicate UnsafeComponent(component: string)
  {
    || Flawed(component)
    || IsReserved(Lower(Stem(component)))
    || Lower(component) == ".git"
    || IsProtectedAlias(component)
    || |component| > 255
  }

  // ----- The stem of a component -----

  /** `split(c, 1)[0]`: the text before the first `c`. */
  lemma {:induction false} UpToMeans(s: string, c: char)
    ensures var r := UpTo(s, c);
            r <= s && (forall i :: 0 <= i < |r| ==> s[i] != c) && (|r| < |s| ==> s[|r|] == c)
  {
    if s != [] && s[0] != c { UpToMeans(s[1..], c); }
  }

  lemma {:induction false} UpToUnique(s: string, c: char, n: nat)
    requires n <= |s| && (forall i :: 0 <= i < n ==> s[i] != c) && (n < |s| ==> s[n] == c)
    ensures UpTo(s, c) == s[..n]
  {
    if n > 0 {
      UpToUnique(s[1..], c, n - 1);
      assert s[..n] == [s[0]] + s[1..][..n - 1];
    }
  }

  /** `rstrip(" .")`: the text up to its last character that is neither. */
  lemma {:induction false} StripMeans(s: string)
    ensures var r := StripDotsAndSpaces(s);
            r <= s && (r != [] ==> !Dull(s[|r| - 1])) && forall i :: |r| <= i < |s| ==> Dull(s[i])
  {
    if s != [] && Dull(s[|s| - 1]) { StripMeans(s[..|s| - 1]); }
  }

  lemma {:induction false} StripUnique(s: string, n: nat)
    requires n <= |s| && (n > 0 ==> !Dull(s[n - 1])) && forall i :: n <= i < |s| ==> Dull(s[i])
    ensures StripDotsAndSpaces(s) == s[..n]
  {
    if n < |s| {
      StripUnique(s[..|s| - 1], n);
      assert s[..|s| - 1][..n] == s[..n];
    } else {
      assert s[..n] == s;
    }
  }

  function Stem(s: string): string { StripDotsAndSpaces(UpTo(s, '.')) }

  /** The stem of a name with a stem, spaces and anything from a dot on. */
  lemma StemFound(stem: string, spaces: string, rest: string)
    requires stem != [] && forall i :: 0 <= i < |stem| ==> !Dull(stem[i])
    requires (forall i :: 0 <= i < |spaces| ==> spaces[i] == ' ') && (rest == [] || rest[0] == '.')
    ensures Stem(stem + spaces + rest) == stem
  {
    var s, head := stem + spaces + rest, stem + spaces;
    assert s[..|head|] == head;
    UpToUnique(s, '.', |head|);
    StripUnique(head, |stem|);
    assert head[..|stem|] == stem;
  }

  // ----- Safety does not depend on case -----

  lemma {:induction false} LowerTake(s: string, k: nat)
    requires k <= |s|
    ensures Lower(s[..k]) == Lower(s)[..k]
  {
    if k > 0 {
      LowerTake(s[1..], k - 1);
      assert s[..k][1..] == s[1..][..k - 1];
    }
  }

  predicate Caseless(c: char) { !('A' <= c <= 'Z') && !('a' <= c <= 'z') }

  /** Characters that are equal but for their case. */
  predicate SameChar(a: char, b: char)
  {
    (Caseless(a) || Caseless(b) ==> a == b) && (a as int < 128 <==> b as int < 128)
  }

  lemma SameLowered(a: char, b: char)
    requires (if 'A' <= a <= 'Z' then a - 'A' + 'a' else a) == (if 'A' <= b <= 'Z' then b - 'A' + 'a' else b)
    ensures SameChar(a, b)
  {
  }

  lemma SameAt(a: string, b: string, i: nat)
    requires Lower(a) == Lower(b) && i < |a| == |b|
    ensures SameChar(a[i], b[i])
  {
    hide Lower, SameChar;
    LowerAt(a, i);
    LowerAt(b, i);
    SameLowered(a[i], b[i]);
  }

  lemma SameChars(a: string, b: string)
    requires Lower(a) == Lower(b)
    ensures |a| == |b| && forall i :: 0 <= i < |a| ==> SameChar(a[i], b[i])
  {
    assert |Lower(a)| == |a| && |Lower(b)| == |b|;
    hide Lower, SameChar;
    forall i | 0 <= i < |a| ensures SameChar(a[i], b[i]) { SameAt(a, b, i); }
  }

  lemma SameUpTo(a: string, b: string)
    requires Lower(a) == Lower(b)
    ensures Lower(UpTo(a, '.')) == Lower(UpTo(b, '.'))
  {
    SameChars(a, b);
    UpToMeans(a, '.');
    var n := |UpTo(a, '.')|;
    assert UpTo(a, '.') == a[..n];
    hide Lower, UpTo;
    assert forall i :: 0 <= i < |a| ==> (a[i] == '.' <==> b[i] == '.');
    UpToUnique(b, '.', n);
    LowerTake(a, n);
    LowerTake(b, n);
  }

  lemma SameStrip(a: string, b: string)
    requires Lower(a) == Lower(b)
    ensures Lower(StripDotsAndSpaces(a)) == Lower(StripDotsAndSpaces(b))
  {
    SameChars(a, b);
    StripMeans(a);
    var n := |StripDotsAndSpaces(a)|;
    assert StripDotsAndSpaces(a) == a[..n];
    hide Lower, StripDotsAndSpaces;
    assert forall i :: 0 <= i < |a| ==> (Dull(a[i]) <==> Dull(b[i]));
    StripUnique(b, n);
    LowerTake(a, n);
    LowerTake(b, n);
  }

  lemma SameFlaws(a: char, b: char)
    requires SameChar(a, b)
    ensures (Invalid(a) <==> Invalid(b)) && (BeyondAscii(a) <==> BeyondAscii(b)) && (Dull(a) <==> Dull(b))
  {
  }

  /** Whether a component is safe does not depend on the case it is spelled in. */
  lemma SafetyIgnoresCase(a: string, b: string)
    requires Lower(a) == Lower(b)
    ensures UnsafeComponent(a) == UnsafeComponent(b)
  {
    SameFlawed(a, b);
    SameUpTo(a, b);
    SameStrip(UpTo(a, '.'), UpTo(b, '.'));
    SameAlias(a, b);
    hide Lower, UpTo, StripDotsAndSpaces, Flawed, IsReserved, IsProtectedAlias;
  }

  lemma SameFlawed(a: string, b: string)
    requires Lower(a) == Lower(b)
    ensures Flawed(a) == Flawed(b) && |a| == |b|
  {
    hide Lower, SameChar, Flawed;
    SameChars(a, b);
    if Flawed(a) { FlawedToo(a, b); }
    if Flawed(b) {
      SameChars(b, a);
      FlawedToo(b, a);
    }
  }

  lemma FlawedToo(a: string, b: string)
    requires |a| == |b| && (forall i :: 0 <= i < |a| ==> SameChar(a[i], b[i])) && Flawed(a)
    ensures Flawed(b)
  {
    hide SameChar, Invalid, BeyondAscii, Dull;
    if Dull(a[|a| - 1]) {
      SameFlaws(a[|a| - 1], b[|a| - 1]);
    } else {
      var i :| 0 <= i < |a| && (Invalid(a[i]) || BeyondAscii(a[i]));
      SameFlaws(a[i], b[i]);
    }
  }

  lemma SameAlias(a: string, b: string)
    requires Lower(a) == Lower(b)
    ensures IsProtectedAlias(a) == IsProtectedAlias(b)
  {
    hide Lower, UpTo;
  }

  // ----- Names that are always unsafe -----

  lemma ReservedPlain(stem: string)
    requires stem in RESERVED_STEMS
    ensures 3 <= |stem| <= 4 && forall i :: 0 <= i < |stem| ==> !Dull(stem[i])
  {
  }

  /** A device name is unsafe in any case, with spaces after it and with any
      extension. */
  lemma DeviceNamesUnsafe(stem: string, spaces: string, extension: string)
    requires Lower(stem) in RESERVED_STEMS && forall i :: 0 <= i < |spaces| ==> spaces[i] == ' '
    ensures UnsafeComponent(stem + spaces) && UnsafeComponent(stem + spaces + "." + extension)
  {
    ReservedPlain(Lower(stem));
    forall i | 0 <= i < |stem| ensures !Dull(stem[i]) { LowerAt(stem, i); }
    hide Lower, Flawed, IsProtectedAlias, Stem;
    StemFound(stem, spaces, "");
    StemFound(stem, spaces, "." + extension);
    assert stem + spaces + "" == stem + spaces && stem + spaces + ("." + extension) == stem + spaces + "." + extension;
  }

  lemma ProtectedPlain(name: string, prefix: string)
    requires (name, prefix) in PROTECTED_NAMES
    ensures |name| >= 6 && |prefix| == 6 && forall i :: 0 <= i < 6 ==> prefix[i] != '~'
  {
  }

  /** Git's short names of its control files, `~1` to `~4`, are protected. */
  lemma ShortNamesUnsafe(component: string, name: string, prefix: string, digit: char)
    requires (name, prefix) in PROTECTED_NAMES && '1' <= digit <= '4' && Lower(component) == name[..6] + "~" + [digit]
    ensures UnsafeComponent(component)
  {
    ProtectedPlain(name, prefix);
    var candidate := Lower(component);
    assert candidate[..6] == name[..6] && candidate[6] == '~' && candidate[7] == digit;
    hide Lower, UpTo, Flawed, IsReserved, Stem;
    assert '~' in candidate;
    assert IsProtectedAlias(component);
  }

  /** So are the names Git falls back to: a shortened prefix and a number. */
  lemma FallbackNamesUnsafe(component: string, name: string, prefix: string, k: nat, number: string)
    requires (name, prefix) in PROTECTED_NAMES && k <= 6 && |number| == 7 - k
    requires number[0] != '0' && forall i :: 0 <= i < |number| ==> '0' <= number[i] <= '9'
    requires Lower(component) == prefix[..k] + "~" + number
    ensures UnsafeComponent(component)
  {
    ProtectedPlain(name, prefix);
    hide Lower, Imitates, Flawed, IsReserved, Stem;
    TildeAt(Lower(component), prefix[..k], number);
    FallbackImitates(Lower(component), name, prefix, k, number);
    assert IsProtectedAlias(component);
  }

  lemma FallbackImitates(candidate: string, name: string, prefix: string, k: nat, number: string)
    requires |name| >= 6 && |prefix| >= 6 && '~' !in prefix && k <= 6 && |number| == 7 - k
    requires number[0] != '0' && forall i :: 0 <= i < |number| ==> '0' <= number[i] <= '9'
    requires candidate == prefix[..k] + "~" + number && '~' in candidate
    ensures Imitates(candidate, name, prefix)
  {
    TildeAt(candidate, prefix[..k], number);
    UpToUnique(candidate, '~', k);
    NumberDigits(number);
    hide UpTo;
    assert candidate[k + 1] == number[0];
  }

  lemma TildeAt(candidate: string, head: string, number: string)
    requires candidate == head + "~" + number
    ensures '~' in candidate && candidate[|head|] == '~' && candidate[..|head|] == head
    ensures forall i :: 0 <= i < |head| ==> candidate[i] == head[i]
    ensures forall i :: |head| < i < |candidate| ==> candidate[i] == number[i - |head| - 1]
  {
  }

  lemma NumberDigits(number: string)
    requires forall i :: 0 <= i < |number| ==> '0' <= number[i] <= '9'
    ensures forall i :: 0 <= i < |number| ==> number[i] in DIGITS
  {
  }

  /** What spoils a component wherever it stands, or at its end. */
  lemma FlawsUnsafe(component: string, i: nat)
    requires i < |component|
    ensures component[i] in "<>:\"\\|?*" ==> UnsafeComponent(component)
    ensures component[i] as int < 32 || component[i] as int > 127 ==> UnsafeComponent(component)
    ensures component[|component| - 1] == '.' || component[|component| - 1] == ' ' ==> UnsafeComponent(component)
    ensures |component| > 255 ==> UnsafeComponent(component)
  {
    hide IsProtectedAlias, StripDotsAndSpaces, UpTo, Lower;
    FlawsAre(component[i]);
  }

  lemma FlawsAre(c: char)
    ensures c in "<>:\"\\|?*" ==> c in INVALID_CHARACTERS
  {
  }

  /** Git's own directory is unsafe under its name and its short name. */
  lemma GitUnsafe(component: string)
    ensures Lower(component) == ".git" || Lower(component) == "git~1" ==> UnsafeComponent(component)
  {
    hide StripDotsAndSpaces, UpTo, Lower;
  }

  ghost predicate Ordinary(component: string)
  {
    forall i :: 0 <= i < |component| ==>
      var c := component[i];
      'a' <= c <= 'z' || 'A' <= c <= 'Z' || '0' <= c <= '9' || c == '_' || c == '-'
  }

  /** A name of letters, digits, underscores and hyphens is safe unless it is too
      long or a device's. */
  lemma OrdinarySafe(component: string)
    requires Ordinary(component) && component != []
    ensures UnsafeComponent(component) <==> |component| > 255 || IsReserved(Lower(component))
  {
    hide Ordinary, Flawed, Lower, StripDotsAndSpaces, UpTo, IsProtectedAlias, IsReserved;
    OrdinaryStem(component);
    OrdinaryClear(component);
    OrdinaryKept(component);
  }

  lemma OrdinaryStem(component: string)
    requires Ordinary(component) && component != []
    ensures StripDotsAndSpaces(UpTo(component, '.')) == component
  {
    UpToUnique(component, '.', |component|);
    assert component[..|component|] == component;
    StripUnique(component, |component|);
  }

  lemma OrdinaryClear(component: string)
    requires Ordinary(component) && component != []
    ensures !Flawed(component)
  {
  }

  lemma OrdinaryKept(component: string)
    requires Ordinary(component) && component != []
    ensures !IsProtectedAlias(component) && Lower(component) != ".git"
  {
    hide UpTo;
    forall i | 0 <= i < |component| ensures Lower(component)[i] != '~' && Lower(component)[i] != '.' { LowerAt(component, i); }
    assert "git~1"[3] == '~' && ".git"[0] == '.';
  }
}
