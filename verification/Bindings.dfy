/** The value checks that the release generator and the release verifier share. None is a refusal. */
module Bindings {
  import opened Wrappers

  /** The characters `str.strip` removes. */
  predicate IsSpace(c: char) {
    var u := c as int;
    9 <= u <= 13 || 28 <= u <= 32 || u == 0x85 || u == 0xA0 || u == 0x1680 ||
    0x2000 <= u <= 0x200A || u in {0x2028, 0x2029, 0x202F, 0x205F, 0x3000}
  }

  function StripLeft(s: string): (r: string)
    ensures r == "" || !IsSpace(r[0])
    ensures |r| <= |s| && r == s[|s| - |r|..]
  {
    if s != "" && IsSpace(s[0]) then StripLeft(s[1..]) else s
  }

  function StripRight(s: string): (r: string)
    ensures r == "" || !IsSpace(r[|r| - 1])
    ensures |r| <= |s| && r == s[..|r|]
  {
    if s != "" && IsSpace(s[|s| - 1]) then StripRight(s[..|s| - 1]) else s
  }

  function Strip(s: string): string {
    StripRight(StripLeft(s))
  }

  predicate Trimmed(s: string) {
    s == "" || (!IsSpace(s[0]) && !IsSpace(s[|s| - 1]))
  }

  /** Stripping leaves no space at either end and changes nothing that has none. */
  lemma StripTrims(s: string)
    ensures Trimmed(Strip(s))
    ensures Trimmed(s) <==> Strip(s) == s
  {
    var left := StripLeft(s);
    if Strip(s) != "" {
      assert Strip(s)[0] == left[0];
    }
  }

  lemma {:induction false} StripLeftAround(s: string)
    ensures All(s[..|s| - |StripLeft(s)|], IsSpace)
  {
    if s != "" && IsSpace(s[0]) {
      StripLeftAround(s[1..]);
      var n := |s| - |StripLeft(s)|;
      assert s[..n] == [s[0]] + s[1..][..n - 1];
    }
  }

  lemma {:induction false} StripRightAround(s: string)
    ensures All(s[|StripRight(s)|..], IsSpace)
  {
    if s != "" && IsSpace(s[|s| - 1]) {
      var p, n := s[..|s| - 1], |StripRight(s)|;
      StripRightAround(p);
      assert s[n..] == p[n..] + [s[|s| - 1]];
    }
  }

  predicate Around(s: string, left: string, text: string, right: string) {
    s == left + text + right && All(left, IsSpace) && All(right, IsSpace)
  }

  /** Stripping takes away nothing but spaces around the text. */
  lemma StripAround(s: string)
    ensures exists left, right :: Around(s, left, Strip(s), right)
  {
    var stripped := StripLeft(s);
    StripLeftAround(s);
    StripRightAround(stripped);
    var i := |s| - |stripped|;
    assert s[i..] == stripped && stripped[..|Strip(s)|] == Strip(s);
    Pieces(s, i, |Strip(s)|);
    assert Around(s, s[..i], Strip(s), stripped[|Strip(s)|..]);
  }

  lemma Pieces(s: string, i: nat, n: nat)
    requires i <= |s| && n <= |s| - i && All(s[..i], IsSpace) && All(s[i..][n..], IsSpace)
    ensures Around(s, s[..i], s[i..][..n], s[i..][n..])
  {
    assert s == s[..i] + s[i..] && s[i..] == s[i..][..n] + s[i..][n..];
  }

  /** Blanks and line ends are spaces; no letter, digit or punctuation mark of ASCII is. */
  lemma SpacesExactly(c: char)
    ensures c <= '~' ==> (IsSpace(c) <==> c == ' ' || '\t' <= c <= '\r' || 28 <= c as int <= 31)
  {
  }

  lemma StripTwice(s: string)
    ensures Strip(Strip(s)) == Strip(s)
  {
    StripTrims(s);
    StripTrims(Strip(s));
  }

  predicate All(s: string, ok: char -> bool) {
    forall i :: 0 <= i < |s| ==> ok(s[i])
  }

  predicate IsDigit(c: char) {
    '0' <= c <= '9'
  }

  predicate IsHex(c: char) {
    IsDigit(c) || 'a' <= c <= 'f'
  }

  predicate IsAlnum(c: char) {
    IsDigit(c) || 'a' <= c <= 'z' || 'A' <= c <= 'Z'
  }

  predicate IsNameChar(c: char) {
    IsAlnum(c) || c in {'_', '.', '-'}
  }

  predicate GitObjectShape(s: string) {
    |s| == 40 && All(s, IsHex)
  }

  predicate PositiveIntegerShape(s: string) {
    s != "" && All(s, IsDigit) && s[0] != '0'
  }

  predicate RepositoryShape(s: string) {
    exists i :: 0 < i < |s| - 1 && s[i] == '/' && All(s[..i], IsNameChar) && All(s[i + 1..], IsNameChar)
  }

  predicate TagShape(s: string) {
    exists i, j :: 1 < i && i + 1 < j < |s| - 1 && s[0] == 'v' && s[i] == '.' && s[j] == '.' &&
      All(s[1..i], IsDigit) && All(s[i + 1..j], IsDigit) && All(s[j + 1..], IsDigit)
  }

  // ------------------------------------------------------------------ the checks

  /** What the checks are made of: stripping, and the shapes of the checked values. */
  datatype Rules = Rules(
    strip: string -> string, gitObject: string -> bool, positiveInteger: string -> bool,
    repository: string -> bool, tag: string -> bool)
  {
    /** All that the agreement of the two sides rests on. */
    ghost predicate Lawful() {
      && (forall s :: strip(strip(s)) == strip(s))
      && (forall s :: tag(s) ==> s != "" && strip(s) == s)
    }

    function Text(value: Option<string>): Option<string> {
      if value.Some? && strip(value.value) != "" then Some(strip(value.value)) else None
    }

    function Checked(value: Option<string>, shape: string -> bool): Option<string> {
      var text := Text(value);
      if text.Some? && shape(text.value) then text else None
    }

    function GitObject(value: Option<string>): Option<string> {
      Checked(value, gitObject)
    }

    function PositiveInteger(value: Option<string>): Option<string> {
      Checked(value, positiveInteger)
    }

    function Repository(value: Option<string>): Option<string> {
      Checked(value, repository)
    }
  }

  const RELEASE_RULES := Rules(Strip, GitObjectShape, PositiveIntegerShape, RepositoryShape, TagShape)

  /** A value that passed a check passes it again, unchanged. */
  lemma CheckedAgain(c: Rules, value: Option<string>, shape: string -> bool)
    requires c.Lawful() && c.Checked(value, shape).Some?
    ensures c.Checked(c.Checked(value, shape), shape) == c.Checked(value, shape)
  {
  }

  /** The rules in force are lawful: stripping is idempotent and a tag has no space to strip. */
  lemma ReleaseRulesLawful()
    ensures RELEASE_RULES.Lawful()
  {
    forall s: string
      ensures Strip(Strip(s)) == Strip(s)
    {
      StripTwice(s);
    }
    forall s: string | TagShape(s)
      ensures s != "" && Strip(s) == s
    {
      TagTrimmed(s);
      StripTrims(s);
    }
  }

  lemma TagTrimmed(s: string)
    requires TagShape(s)
    ensures s != "" && Trimmed(s)
  {
    var i, j :| 1 < i && i + 1 < j < |s| - 1 && s[0] == 'v' && s[i] == '.' && s[j] == '.' &&
      All(s[1..i], IsDigit) && All(s[i + 1..j], IsDigit) && All(s[j + 1..], IsDigit);
    assert s[|s| - 1] == s[j + 1..][|s| - j - 2];
  }

  const GITHUB := "github:"

  predicate IdShape(s: string) {
    s != "" && IsAlnum(s[0]) && All(s, IsNameChar)
  }

  function CanonicalId(text: string): Option<string> {
    var id := if GITHUB <= text then text[|GITHUB|..] else text;
    if IdShape(id) then Some(GITHUB + id) else None
  }

  /** One canonical attestation identity, from `123` or `github:123`. */
  function NormalizeId(value: Option<string>): Option<string> {
    if value.None? then None else CanonicalId(Strip(value.value))
  }

  /** A canonical identity is its own canonical form, so comparing them after a second
      normalisation is comparing them before it. */
  lemma NormalizeIdAgain(value: Option<string>)
    requires NormalizeId(value).Some?
    ensures NormalizeId(NormalizeId(value)) == NormalizeId(value)
  {
    var text := Strip(value.value);
    var id := if GITHUB <= text then text[|GITHUB|..] else text;
    CanonicalIdStays(id);
    PrefixedTrimmed(id);
    TrimmedIdStays(GITHUB + id);
  }

  lemma TrimmedIdStays(full: string)
    requires Trimmed(full) && CanonicalId(full) == Some(full)
    ensures NormalizeId(Some(full)) == Some(full)
  {
    StripTrims(full);
  }

  lemma CanonicalIdStays(id: string)
    requires IdShape(id)
    ensures CanonicalId(GITHUB + id) == Some(GITHUB + id)
  {
    assert (GITHUB + id)[|GITHUB|..] == id;
  }

  lemma PrefixedTrimmed(id: string)
    requires IdShape(id)
    ensures Trimmed(GITHUB + id)
  {
    var full := GITHUB + id;
    assert full[|full| - 1] == id[|id| - 1] && full[0] == 'g';
    assert IsNameChar(id[|id| - 1]);
  }

  // ------------------------------------------------------------------ the shapes, piece by piece

  predicate OwnerAndName(s: string, owner: string, name: string) {
    s == owner + "/" + name && owner != "" && name != "" && All(owner, IsNameChar) && All(name, IsNameChar)
  }

  /** A repository is an owner and a name around a slash, neither of them empty. */
  lemma RepositoryExactly(s: string)
    ensures RepositoryShape(s) <==> exists owner, name :: OwnerAndName(s, owner, name)
  {
    if RepositoryShape(s) {
      var i :| 0 < i < |s| - 1 && s[i] == '/' && All(s[..i], IsNameChar) && All(s[i + 1..], IsNameChar);
      assert OwnerAndName(s, s[..i], s[i + 1..]);
    }
    if owner, name :| OwnerAndName(s, owner, name) {
      var i := |owner|;
      assert s[..i] == owner && s[i + 1..] == name && s[i] == '/';
    }
  }

  predicate Digits(s: string) {
    s != "" && All(s, IsDigit)
  }

  predicate IsTag(s: string, x: string, y: string, z: string) {
    s == "v" + x + "." + y + "." + z && Digits(x) && Digits(y) && Digits(z)
  }

  /** A release tag is a `v` and three numbers with dots between them. */
  lemma TagExactly(s: string)
    ensures TagShape(s) <==> exists x, y, z :: IsTag(s, x, y, z)
  {
    if TagShape(s) {
      var i, j :| 1 < i && i + 1 < j < |s| - 1 && s[0] == 'v' && s[i] == '.' && s[j] == '.' &&
        All(s[1..i], IsDigit) && All(s[i + 1..j], IsDigit) && All(s[j + 1..], IsDigit);
      TagPieces(s, i, j);
    }
    if x, y, z :| IsTag(s, x, y, z) {
      TagPlaces(s, x, y, z);
    }
  }

  lemma TagPieces(s: string, i: nat, j: nat)
    requires 1 < i && i + 1 < j < |s| - 1 && s[0] == 'v' && s[i] == '.' && s[j] == '.'
    requires All(s[1..i], IsDigit) && All(s[i + 1..j], IsDigit) && All(s[j + 1..], IsDigit)
    ensures IsTag(s, s[1..i], s[i + 1..j], s[j + 1..])
  {
    assert s[..i] == "v" + s[1..i];
    assert s[..j] == s[..i] + "." + s[i + 1..j];
    assert s == s[..j] + "." + s[j + 1..];
  }

  lemma TagPlaces(s: string, x: string, y: string, z: string)
    requires IsTag(s, x, y, z)
    ensures TagShape(s)
  {
    var i, j := 1 + |x|, |x| + |y| + 2;
    var head := "v" + x;
    var middle := head + "." + y;
    assert s == middle + "." + z && |head| == i && |middle| == j;
    assert s[j] == '.' && s[j + 1..] == z && s[..j] == middle;
    assert s[i] == middle[i] == '.' && s[i + 1..j] == middle[i + 1..] == y;
    assert s[1..i] == middle[1..i] == x && s[0] == 'v';
  }

  /** A canonical identity is `github:` and a safe name, read from either of the two forms with or without space
      around it. */
  lemma IdExactly(value: string, id: string)
    ensures NormalizeId(Some(value)) == Some(id) <==>
      exists name :: IdShape(name) && id == GITHUB + name && (Strip(value) == name || Strip(value) == GITHUB + name)
  {
    var text := Strip(value);
    if NormalizeId(Some(value)) == Some(id) {
      var name := if GITHUB <= text then text[|GITHUB|..] else text;
      assert GITHUB <= text ==> text == GITHUB + name;
      assert IdShape(name) && id == GITHUB + name;
    }
    if name :| IdShape(name) && id == GITHUB + name && (text == name || text == GITHUB + name) {
      NotPrefixed(name);
      assert (GITHUB + name)[|GITHUB|..] == name;
    }
  }

  /** No safe name starts with `github:`, for a colon is not in it. */
  lemma NotPrefixed(name: string)
    requires IdShape(name)
    ensures !(GITHUB <= name)
  {
    assert |name| > 6 ==> IsNameChar(name[6]);
    assert GITHUB[6] == ':';
  }
}
