/** The manifest of an artifact set: its validation, and the bytes whose digest
    names the set. Whatever collection returns is a valid manifest, and the
    hashed bytes determine the members and nothing else about their order. */
module Manifest {
  import opened Seqs
  import opened Collection
  import Walking

  const ARTIFACT_MEDIA_TYPE := "application/octet-stream"

  datatype Member = Member(name: string, bytes: nat, mediaType: string)

  datatype ManifestError = TooManyMembers | InvalidMember | BytesOverflow | ByteQuota

  // ----- Validation -----

  predicate WellNamed(m: Member)
  {
    && m.name != []
    && Utf8Bytes(m.name) <= MAX_ARTIFACT_OBJECT_NAME_BYTES
    && !HasControl(m.name)
    && m.mediaType == ARTIFACT_MEDIA_TYPE
  }

  ghost predicate DistinctMembers(members: seq<Member>)
  {
    forall i, j :: 0 <= i < j < |members| ==> members[i].name != members[j].name
  }

  function Total(members: seq<Member>): (total: nat)
  {
    if members == [] then 0 else Total(members[..|members| - 1]) + members[|members| - 1].bytes
  }

  ghost predicate Sound(members: seq<Member>)
  {
    && (forall i :: 0 <= i < |members| ==> WellNamed(members[i]))
    && DistinctMembers(members)
  }

  /** A manifest the controller takes. */
  ghost predicate Acceptable(members: seq<Member>)
  {
    && |members| <= MAX_ARTIFACT_FILES_PER_ATTEMPT
    && Sound(members)
    && Total(members) <= MAX_ATTEMPT_ARTIFACT_BYTES
  }

  /** What is wrong with the first member at fault, number `i`. */
  ghost predicate FaultAt(error: ManifestError, members: seq<Member>, i: nat)
    requires i < |members|
  {
    && Sound(members[..i]) && Total(members[..i]) <= MAX_ATTEMPT_ARTIFACT_BYTES
    && match error
       case TooManyMembers => false
       case InvalidMember => !Sound(members[..i + 1])
       case BytesOverflow => Sound(members[..i + 1]) && Total(members[..i + 1]) > U64_MAX
       case ByteQuota => Sound(members[..i + 1]) && MAX_ATTEMPT_ARTIFACT_BYTES < Total(members[..i + 1]) <= U64_MAX
  }

  ghost predicate Fault(error: ManifestError, members: seq<Member>)
  {
    if |members| > MAX_ARTIFACT_FILES_PER_ATTEMPT then error.TooManyMembers?
    else exists i :: 0 <= i < |members| && FaultAt(error, members, i)
  }

  lemma SoundSnoc(members: seq<Member>, i: nat)
    requires i < |members| && Sound(members[..i])
    ensures Sound(members[..i + 1]) <==>
              WellNamed(members[i]) && forall k :: 0 <= k < i ==> members[k].name != members[i].name
  {
    hide WellNamed;
    var now, before := members[..i + 1], members[..i];
    assert forall k :: 0 <= k < i ==> now[k] == members[k] && before[k] == members[k];
    assert now[i] == members[i];
  }

  lemma {:induction false} TotalGrows(members: seq<Member>, i: nat)
    requires i <= |members|
    ensures Total(members[..i]) <= Total(members)
    decreases |members| - i
  {
    if i == |members| {
      assert members[..i] == members;
    } else {
      assert members[..i + 1][..i] == members[..i];
      TotalGrows(members, i + 1);
    }
  }

  lemma SoundPrefix(members: seq<Member>, i: nat)
    requires i <= |members| && Sound(members)
    ensures Sound(members[..i])
  {
    hide WellNamed;
  }

  /** A fault anywhere means the manifest is not acceptable. */
  lemma FaultRefuses(error: ManifestError, members: seq<Member>)
    requires Fault(error, members)
    ensures !Acceptable(members)
  {
    if Acceptable(members) {
      var i :| 0 <= i < |members| && FaultAt(error, members, i);
      hide Sound;
      SoundPrefix(members, i + 1);
      TotalGrows(members, i + 1);
    }
  }

  method ValidateManifest(members: seq<Member>) returns (r: Result<nat, ManifestError>)
    ensures r.Ok? <==> Acceptable(members)
    ensures r.Ok? ==> r.value == Total(members)
    ensures r.Err? ==> Fault(r.error, members)
  {
    hide WellNamed;
    if |members| > MAX_ARTIFACT_FILES_PER_ATTEMPT {
      return Err(TooManyMembers);
    }
    var total := 0;
    var names: set<string> := {};
    for i := 0 to |members|
      invariant Sound(members[..i])
      invariant total == Total(members[..i]) <= MAX_ATTEMPT_ARTIFACT_BYTES
      invariant forall n :: n in names <==> exists k :: 0 <= k < i && members[k].name == n
    {
      SoundSnoc(members, i);
      assert members[..i + 1][..i] == members[..i] && members[..i + 1][i] == members[i];
      if !WellNamed(members[i]) || members[i].name in names {
        assert FaultAt(InvalidMember, members, i);
        FaultRefuses(InvalidMember, members);
        return Err(InvalidMember);
      }
      names := names + {members[i].name};
      if total + members[i].bytes > U64_MAX {
        assert FaultAt(BytesOverflow, members, i);
        FaultRefuses(BytesOverflow, members);
        return Err(BytesOverflow);
      }
      total := total + members[i].bytes;
      if total > MAX_ATTEMPT_ARTIFACT_BYTES {
        assert FaultAt(ByteQuota, members, i);
        FaultRefuses(ByteQuota, members);
        return Err(ByteQuota);
      }
    }
    assert members[..|members|] == members;
    r := Ok(total);
  }

  // ----- Every collection is a valid manifest -----

  function MemberOf(f: CollectedFile): Member { Member(f.name, f.bytes, ARTIFACT_MEDIA_TYPE) }

  function ManifestOf(files: seq<CollectedFile>): (members: seq<Member>)
    ensures |members| == |files|
    ensures forall i :: 0 <= i < |files| ==> members[i] == MemberOf(files[i])
  {
    if files == [] then [] else ManifestOf(files[..|files| - 1]) + [MemberOf(files[|files| - 1])]
  }

  lemma {:induction false} ManifestTotal(files: seq<CollectedFile>)
    ensures Total(ManifestOf(files)) == TotalBytes(files)
  {
    if files != [] {
      var members := ManifestOf(files);
      assert members[..|members| - 1] == ManifestOf(files[..|files| - 1]);
      ManifestTotal(files[..|files| - 1]);
    }
  }

  lemma NameHasNoControl(name: string, text: string)
    requires ValidName(name) && !HasControl(text)
    ensures !HasControl(ObjectName(name, text))
  {
    var whole := ObjectName(name, text);
    forall i | 0 <= i < |whole|
      ensures !(whole[i] as int < 0x20 || 0x7F <= whole[i] as int <= 0x9F)
    {
      if i > |name| { assert whole[i] == text[i - |name| - 1]; }
    }
  }

  lemma MatchedValid(specs: seq<ArtifactSpec>, p: Path, name: string)
    requires Validated(specs) && name in Collects(CompileSpecs(specs), p)
    ensures ValidName(name)
  {
    hide ValidName;
    MatchedOne(CompileSpecs(specs), Shown(p));
  }

  /** An object of an entry that offends nothing makes a good member. */
  lemma ObjectWellNamed(specs: seq<ArtifactSpec>, t: Tree, workspace: (nat, nat), p: Path, f: CollectedFile)
    requires Validated(specs) && p in t && p != []
    requires Offence(CompileSpecs(specs), t, p).None? && f in FilesAt(CompileSpecs(specs), t, workspace, p)
    ensures WellNamed(MemberOf(f))
  {
    hide ValidName, HasControl, Utf8Bytes, Validated;
    var names := Collects(CompileSpecs(specs), p);
    var files := Objects(names, Text(p), t[p], workspace);
    var i :| 0 <= i < |files| && files[i] == f;
    assert names[i] in names;
    MatchedValid(specs, p, names[i]);
    assert !HasControl(Text(p)) && !NameTooLong(names, Text(p));
    NameHasNoControl(names[i], Text(p));
  }

  lemma CollectionSound(files: seq<CollectedFile>, specs: seq<ArtifactSpec>, t: Tree, workspace: (nat, nat))
    requires WellFormed(t) && Validated(specs) && Collectable(CompileSpecs(specs), t)
    requires IsCollection(files, CompileSpecs(specs), t, workspace)
    ensures Sound(ManifestOf(files))
  {
    hide WellNamed, Validated, Offence, FilesAt, Less, Reached;
    var d := CompileSpecs(specs);
    forall i | 0 <= i < |files| ensures WellNamed(MemberOf(files[i])) {
      assert files[i] in files;
      var p :| p in Visited(d, t) && files[i] in FilesAt(d, t, workspace, p);
      ObjectWellNamed(specs, t, workspace, p, files[i]);
    }
    forall i, j | 0 <= i < j < |files| ensures files[i].name != files[j].name {
      LessTotal(files[i].name, files[j].name);
    }
  }

  datatype Prepared =
    | Ready(files: seq<CollectedFile>, total: nat)
    | Refused(refusal: Refusal)
    | InvalidAssignment(error: ManifestError)

  /** Collecting, then validating: the collection's refusals are the only ones. */
  method CollectManifest(specs: seq<ArtifactSpec>, t: Tree, workspace: (nat, nat)) returns (r: Prepared)
    requires WellFormed(t) && Validated(specs)
    ensures !r.InvalidAssignment?
    ensures r.Ready? <==> Collectable(CompileSpecs(specs), t)
    ensures r.Ready? ==> IsCollection(r.files, CompileSpecs(specs), t, workspace)
    ensures r.Ready? ==> Acceptable(ManifestOf(r.files)) && r.total == TotalBytes(r.files)
    ensures r.Refused? ==> Walking.Justified(r.refusal, CompileSpecs(specs), t)
  {
    hide Sound, Validated, Visited, Walking.Justified;
    var collected := Walking.Collect(specs, t, workspace);
    match collected {
      case Err(refusal) => r := Refused(refusal);
      case Ok(files) =>
        CollectionSound(files, specs, t, workspace);
        ManifestTotal(files);
        var checked := ValidateManifest(ManifestOf(files));
        match checked {
          case Err(error) => r := InvalidAssignment(error);
          case Ok(total) => r := Ready(files, total);
        }
    }
  }

  // ----- The bytes hashed -----

  function Utf8One(c: char): (bytes: seq<nat>)
  {
    var n := c as int;
    if n < 0x80 then [n]
    else if n < 0x800 then [0xC0 + n / 0x40, 0x80 + n % 0x40]
    else if n < 0x1_0000 then [0xE0 + n / 0x1000, 0x80 + n / 0x40 % 0x40, 0x80 + n % 0x40]
    else [0xF0 + n / 0x4_0000, 0x80 + n / 0x1000 % 0x40, 0x80 + n / 0x40 % 0x40, 0x80 + n % 0x40]
  }

  function Utf8Of(s: string): (bytes: seq<nat>)
    ensures |bytes| == Utf8Bytes(s)
  {
    if s == [] then [] else Utf8One(s[0]) + Utf8Of(s[1..])
  }

  function BigEndian(n: nat, k: nat): (bytes: seq<nat>)
    ensures |bytes| == k
  {
    if k == 0 then [] else BigEndian(n / 256, k - 1) + [n % 256]
  }

  function Field(bytes: seq<nat>): seq<nat> { BigEndian(|bytes|, 8) + bytes }

  function Record(m: Member): seq<nat> { Field(Utf8Of(m.name)) + Field(Utf8Of(m.mediaType)) + BigEndian(m.bytes, 8) }

  function Records(members: seq<Member>): (bytes: seq<nat>)
  {
    if members == [] then [] else Record(members[0]) + Records(members[1..])
  }

  const DOMAIN := "mcloving.artifact-set.v2\0"

  /** The hashed bytes of members already in name order. */
  function Preimage(sorted: seq<Member>): seq<nat> { Utf8Of(DOMAIN) + Records(sorted) }

  /** The number that bytes spell, most significant first. */
  function Spelled(bytes: seq<nat>): (n: nat)
  {
    if bytes == [] then 0 else 256 * Spelled(bytes[..|bytes| - 1]) + bytes[|bytes| - 1]
  }

  /** Lengths and sizes are written as eight bytes, most significant first. */
  lemma {:induction false} BigEndianMeans(n: nat, k: nat)
    requires n < Power(k)
    ensures Spelled(BigEndian(n, k)) == n && forall i :: 0 <= i < k ==> BigEndian(n, k)[i] < 256
  {
    if k > 0 {
      var bytes := BigEndian(n, k);
      assert bytes[..k - 1] == BigEndian(n / 256, k - 1);
      BigEndianMeans(n / 256, k - 1);
    }
  }

  predicate Continuation(b: nat) { 0x80 <= b < 0xC0 }

  /** Decoding as UTF-8 defines it: the leading byte tells the length and gives
      the high bits, every other byte six more. */
  function Decoded(bytes: seq<nat>): (n: int)
    requires 1 <= |bytes| <= 4
  {
    var b: seq<int> := bytes;
    if |bytes| == 1 then b[0]
    else if |bytes| == 2 then (b[0] - 0xC0) * 0x40 + b[1] - 0x80
    else if |bytes| == 3 then ((b[0] - 0xE0) * 0x40 + b[1] - 0x80) * 0x40 + b[2] - 0x80
    else (((b[0] - 0xF0) * 0x40 + b[1] - 0x80) * 0x40 + b[2] - 0x80) * 0x40 + b[3] - 0x80
  }

  /** A character's bytes decode to it, in the shortest form. */
  lemma Utf8Means(c: char)
    ensures var bytes, n := Utf8One(c), c as int;
            && |bytes| == (if n < 0x80 then 1 else if n < 0x800 then 2 else if n < 0x1_0000 then 3 else 4)
            && (|bytes| == 1 ==> bytes[0] < 0x80) && (|bytes| == 2 ==> 0xC0 <= bytes[0] < 0xE0)
            && (|bytes| == 3 ==> 0xE0 <= bytes[0] < 0xF0) && (|bytes| == 4 ==> 0xF0 <= bytes[0] < 0xF8)
            && (forall i :: 0 < i < |bytes| ==> Continuation(bytes[i]))
            && Decoded(bytes) == n
  {
    var n := c as int;
    assert n == n / 0x40 * 0x40 + n % 0x40;
    if n >= 0x800 { assert n / 0x40 == n / 0x1000 * 0x40 + n / 0x40 % 0x40; }
    if n >= 0x1_0000 { assert n / 0x1000 == n / 0x4_0000 * 0x40 + n / 0x1000 % 0x40; }
  }

  /** A manifest at fault has one first member at fault and one error. */
  lemma FaultUnique(members: seq<Member>, e: ManifestError, f: ManifestError)
    requires Fault(e, members) && Fault(f, members)
    ensures e == f
  {
    hide Sound;
    if |members| <= MAX_ARTIFACT_FILES_PER_ATTEMPT {
      var i :| 0 <= i < |members| && FaultAt(e, members, i);
      var j :| 0 <= j < |members| && FaultAt(f, members, j);
      if i < j { FaultStops(e, members, i, j); }
      if j < i { FaultStops(f, members, j, i); }
    }
  }

  /** Past a fault no prefix is sound and within the quota. */
  lemma FaultStops(error: ManifestError, members: seq<Member>, i: nat, j: nat)
    requires i < j <= |members| && FaultAt(error, members, i)
    ensures !(Sound(members[..j]) && Total(members[..j]) <= MAX_ATTEMPT_ARTIFACT_BYTES)
  {
    hide Sound;
    var now := members[..j];
    assert now[..i + 1] == members[..i + 1];
    if Sound(now) { SoundPrefix(now, i + 1); }
    TotalGrows(now, i + 1);
  }

  // ----- The bytes determine the members -----

  function Power(k: nat): nat { if k == 0 then 1 else 256 * Power(k - 1) }

  lemma {:induction false} BigEndianInjective(a: nat, b: nat, k: nat)
    requires a < Power(k) && b < Power(k) && BigEndian(a, k) == BigEndian(b, k)
    ensures a == b
  {
    if k > 0 {
      var x, y := BigEndian(a, k), BigEndian(b, k);
      assert x[k - 1] == a % 256 && y[k - 1] == b % 256;
      assert x[..k - 1] == BigEndian(a / 256, k - 1) && y[..k - 1] == BigEndian(b / 256, k - 1);
      BigEndianInjective(a / 256, b / 256, k - 1);
    }
  }

  lemma SixtyFourBits(n: nat)
    requires n <= U64_MAX
    ensures n < Power(8)
  {
    assert Power(4) == 0x1_0000_0000;
    assert Power(8) == 256 * (256 * (256 * (256 * Power(4))));
  }

  lemma Leading(c: char, d: char)
    requires Utf8One(c)[0] == Utf8One(d)[0]
    ensures |Utf8One(c)| == |Utf8One(d)|
  {
  }

  lemma SixBits(m: nat, n: nat)
    requires m / 0x40 == n / 0x40 && m % 0x40 == n % 0x40
    ensures m == n
  {
  }

  lemma Utf8OneInjective(c: char, d: char)
    requires Utf8One(c) == Utf8One(d)
    ensures c == d
  {
    var m, n := c as int, d as int;
    Leading(c, d);
    if m >= 0x1_0000 {
      assert m / 0x1000 / 0x40 == m / 0x4_0000 && n / 0x1000 / 0x40 == n / 0x4_0000;
      assert Utf8One(c)[1] == Utf8One(d)[1];
      SixBits(m / 0x1000, n / 0x1000);
    }
    if m >= 0x800 {
      assert m / 0x40 / 0x40 == m / 0x1000 && n / 0x40 / 0x40 == n / 0x1000;
      SixBits(m / 0x40, n / 0x40);
    }
    if m >= 0x80 { SixBits(m, n); }
  }

  lemma {:induction false} Utf8Injective(a: string, b: string)
    requires Utf8Of(a) == Utf8Of(b)
    ensures a == b
  {
    if a != [] && b != [] {
      var x, y := Utf8One(a[0]), Utf8One(b[0]);
      assert Utf8Of(a)[0] == x[0] && Utf8Of(b)[0] == y[0];
      Leading(a[0], b[0]);
      assert x == Utf8Of(a)[..|x|] && y == Utf8Of(b)[..|y|];
      Utf8OneInjective(a[0], b[0]);
      assert Utf8Of(a[1..]) == Utf8Of(a)[|x|..] && Utf8Of(b[1..]) == Utf8Of(b)[|y|..];
      Utf8Injective(a[1..], b[1..]);
      assert a == [a[0]] + a[1..] && b == [b[0]] + b[1..];
    }
  }

  lemma FieldInjective(a: seq<nat>, x: seq<nat>, b: seq<nat>, y: seq<nat>)
    requires |a| <= U64_MAX && |b| <= U64_MAX && Field(a) + x == Field(b) + y
    ensures a == b && x == y
  {
    hide BigEndian, Power;
    var whole, other := Field(a) + x, Field(b) + y;
    assert whole[..8] == BigEndian(|a|, 8) && other[..8] == BigEndian(|b|, 8);
    SixtyFourBits(|a|);
    SixtyFourBits(|b|);
    BigEndianInjective(|a|, |b|, 8);
    assert whole[8..8 + |a|] == a && other[8..8 + |a|] == b;
    assert whole[8 + |a|..] == x && other[8 + |a|..] == y;
  }

  ghost predicate Encodable(m: Member)
  {
    |Utf8Of(m.name)| <= U64_MAX && |Utf8Of(m.mediaType)| <= U64_MAX && m.bytes <= U64_MAX
  }

  lemma Regroup(m: Member, x: seq<nat>)
    ensures Record(m) + x ==
            Field(Utf8Of(m.name)) + (Field(Utf8Of(m.mediaType)) + (BigEndian(m.bytes, 8) + x))
  {
    hide Field, Utf8Of;
  }

  lemma RecordInjective(a: Member, x: seq<nat>, b: Member, y: seq<nat>)
    requires Encodable(a) && Encodable(b) && Record(a) + x == Record(b) + y
    ensures a == b && x == y
  {
    hide Record, Field, BigEndian, Power;
    Regroup(a, x);
    Regroup(b, y);
    var afterA, afterB := BigEndian(a.bytes, 8) + x, BigEndian(b.bytes, 8) + y;
    FieldInjective(Utf8Of(a.name), Field(Utf8Of(a.mediaType)) + afterA, Utf8Of(b.name), Field(Utf8Of(b.mediaType)) + afterB);
    FieldInjective(Utf8Of(a.mediaType), afterA, Utf8Of(b.mediaType), afterB);
    Utf8Injective(a.name, b.name);
    Utf8Injective(a.mediaType, b.mediaType);
    assert afterA[..8] == BigEndian(a.bytes, 8) && afterB[..8] == BigEndian(b.bytes, 8);
    SixtyFourBits(a.bytes);
    SixtyFourBits(b.bytes);
    BigEndianInjective(a.bytes, b.bytes, 8);
    assert afterA[8..] == x && afterB[8..] == y;
  }

  lemma RecordsEmpty(members: seq<Member>)
    ensures Records(members) == [] <==> members == []
  {
    if members != [] {
      assert |Records(members)| == |Record(members[0])| + |Records(members[1..])|;
    }
  }

  lemma {:induction false} RecordsInjective(a: seq<Member>, b: seq<Member>)
    requires forall m :: m in a || m in b ==> Encodable(m)
    requires Records(a) == Records(b)
    ensures a == b
  {
    hide Record, Encodable;
    RecordsEmpty(a);
    RecordsEmpty(b);
    if a != [] && b != [] {
      assert a[0] in a && b[0] in b;
      RecordInjective(a[0], Records(a[1..]), b[0], Records(b[1..]));
      RecordsInjective(a[1..], b[1..]);
      assert a == [a[0]] + a[1..] && b == [b[0]] + b[1..];
    }
  }

  lemma {:induction false} MemberBelowTotal(members: seq<Member>, m: Member)
    requires m in members
    ensures m.bytes <= Total(members)
  {
    var last := members[|members| - 1];
    if m != last {
      var i :| 0 <= i < |members| && members[i] == m;
      assert members[..|members| - 1][i] == m;
      MemberBelowTotal(members[..|members| - 1], m);
    }
  }

  lemma AcceptableEncodes(members: seq<Member>, m: Member)
    requires Acceptable(members) && m in members
    ensures Encodable(m)
  {
    hide HasControl;
    MemberBelowTotal(members, m);
    assert Utf8Bytes(ARTIFACT_MEDIA_TYPE) <= U64_MAX by { MediaTypeShort(); }
  }

  lemma {:induction false} Utf8AtMostFour(s: string)
    ensures Utf8Bytes(s) <= 4 * |s|
  {
    if s != [] { Utf8AtMostFour(s[1..]); }
  }

  lemma MediaTypeShort()
    ensures Utf8Bytes(ARTIFACT_MEDIA_TYPE) <= U64_MAX
  {
    Utf8AtMostFour(ARTIFACT_MEDIA_TYPE);
  }

  function NameOf(m: Member): string { m.name }

  /** The members by name, those with one name as they came. */
  ghost predicate SortedForm(sorted: seq<Member>, members: seq<Member>) { StablySorted(sorted, members, NameOf) }

  lemma {:induction false} RecordsSnoc(members: seq<Member>, m: Member)
    ensures Records(members + [m]) == Records(members) + Record(m)
  {
    hide Record;
    if members == [] {
      assert [m][1..] == [];
    } else {
      RecordsSnoc(members[1..], m);
      assert (members + [m])[1..] == members[1..] + [m];
    }
  }

  method Concatenate(sorted: seq<Member>) returns (bytes: seq<nat>)
    ensures bytes == Preimage(sorted)
  {
    hide Record, Records, Utf8Of, Utf8Bytes;
    bytes := Utf8Of(DOMAIN);
    assert bytes == Preimage([]) by { NoRecords(); }
    for i := 0 to |sorted|
      invariant bytes == Preimage(sorted[..i])
    {
      RecordsSnoc(sorted[..i], sorted[i]);
      assert sorted[..i + 1] == sorted[..i] + [sorted[i]];
      bytes := bytes + Record(sorted[i]);
    }
    assert sorted[..|sorted|] == sorted;
  }

  lemma NoRecords()
    ensures Records([]) == []
  {
  }

  /** The bytes of any member list, members stably sorted by name first. */
  method HashedBytes(members: seq<Member>) returns (bytes: seq<nat>)
    ensures exists sorted :: SortedForm(sorted, members) && bytes == Preimage(sorted)
  {
    hide Preimage, StablySorted;
    var sorted := StableSortBy(members, NameOf);
    bytes := Concatenate(sorted);
    assert SortedForm(sorted, members);
  }

  ghost predicate AllEncodable(members: seq<Member>) { forall m :: m in members ==> Encodable(m) }

  /** Two lists with the same members under each name, in the same order there. */
  ghost predicate SameByName(a: seq<Member>, b: seq<Member>) { forall k :: Keyed(a, NameOf, k) == Keyed(b, NameOf, k) }

  lemma SortedHasMembers(members: seq<Member>, sorted: seq<Member>, m: Member)
    requires SortedForm(sorted, members)
    ensures m in sorted <==> m in members
  {
    KeyedMember(members, NameOf, m.name, m);
    KeyedMember(sorted, NameOf, m.name, m);
  }

  lemma PreimageInjective(a: seq<Member>, b: seq<Member>)
    requires AllEncodable(a) && AllEncodable(b) && Preimage(a) == Preimage(b)
    ensures a == b
  {
    hide Records, Utf8Of, Utf8Bytes, Encodable;
    var n := |Utf8Of(DOMAIN)|;
    assert Records(a) == Preimage(a)[n..] && Records(b) == Preimage(b)[n..];
    RecordsInjective(a, b);
  }

  /** Equal bytes exactly when each name has the same members in the same order;
      how different names are mixed does not matter. */
  lemma PreimageExact(a: seq<Member>, sortedA: seq<Member>, b: seq<Member>, sortedB: seq<Member>)
    requires AllEncodable(a) && SortedForm(sortedA, a) && AllEncodable(b) && SortedForm(sortedB, b)
    ensures Preimage(sortedA) == Preimage(sortedB) <==> SameByName(a, b)
  {
    hide Preimage, Ordered, Encodable, Keyed;
    forall m ensures (m in sortedA <==> m in a) && (m in sortedB <==> m in b) {
      SortedHasMembers(a, sortedA, m);
      SortedHasMembers(b, sortedB, m);
    }
    if SameByName(a, b) { StablySortedUnique(sortedA, sortedB, NameOf); }
    if Preimage(sortedA) == Preimage(sortedB) { PreimageInjective(sortedA, sortedB); }
  }

  lemma {:induction false} OneOfEachName(members: seq<Member>, m: Member)
    requires DistinctMembers(members) && m in members
    ensures Keyed(members, NameOf, m.name) == [m]
  {
    var before, last := members[..|members| - 1], members[|members| - 1];
    if m == last {
      KeyedNone(before, NameOf, m.name);
    } else {
      assert m in before by { assert members == before + [last]; }
      OneOfEachName(before, m);
      var i :| 0 <= i < |before| && before[i] == m;
      assert members[i].name != last.name;
    }
  }

  lemma DistinctSameByName(a: seq<Member>, b: seq<Member>)
    requires DistinctMembers(a) && DistinctMembers(b)
    ensures SameByName(a, b) <==> forall m :: m in a <==> m in b
  {
    hide DistinctMembers, Keyed;
    if SameByName(a, b) {
      forall m ensures m in a <==> m in b {
        KeyedMember(a, NameOf, m.name, m);
        KeyedMember(b, NameOf, m.name, m);
      }
    }
    if forall m :: m in a <==> m in b {
      forall k ensures Keyed(a, NameOf, k) == Keyed(b, NameOf, k) { SameUnderName(a, b, k); }
    }
  }

  lemma SameUnderName(a: seq<Member>, b: seq<Member>, k: string)
    requires DistinctMembers(a) && DistinctMembers(b) && forall m :: m in a <==> m in b
    ensures Keyed(a, NameOf, k) == Keyed(b, NameOf, k)
  {
    hide DistinctMembers, Keyed;
    if m :| m in a && m.name == k {
      OneOfEachName(a, m);
      OneOfEachName(b, m);
    } else {
      forall i | 0 <= i < |a| ensures NameOf(a[i]) != k { assert a[i] in a; }
      forall i | 0 <= i < |b| ensures NameOf(b[i]) != k { assert b[i] in b; }
      KeyedNone(a, NameOf, k);
      KeyedNone(b, NameOf, k);
    }
  }

  type Sha256 = seq<nat> -> seq<nat>

  ghost predicate Collide(h: Sha256, x: seq<nat>, y: seq<nat>) { x != y && h(x) == h(y) }

  /** For valid manifests, in whatever order: one set id exactly for the same
      members, or for two byte strings that collide. */
  lemma SetIdStandsForMembers(h: Sha256, a: seq<Member>, sortedA: seq<Member>, b: seq<Member>, sortedB: seq<Member>)
    requires Acceptable(a) && SortedForm(sortedA, a) && Acceptable(b) && SortedForm(sortedB, b)
    ensures Preimage(sortedA) == Preimage(sortedB) <==> forall m :: m in a <==> m in b
    ensures h(Preimage(sortedA)) == h(Preimage(sortedB)) <==>
            (forall m :: m in a <==> m in b) || Collide(h, Preimage(sortedA), Preimage(sortedB))
  {
    hide Preimage, SortedForm, Encodable, WellNamed, Total, SameByName;
    DistinctSameByName(a, b);
    hide DistinctMembers;
    forall m | m in a ensures Encodable(m) { AcceptableEncodes(a, m); }
    forall m | m in b ensures Encodable(m) { AcceptableEncodes(b, m); }
    PreimageExact(a, sortedA, b, sortedB);
  }
}
