/**
 * The avatar badge of the front end: two initials taken from the username (or, failing that,
 * from the local part of the email) and a background colour derived from a 32-bit string hash.
 */
module UserBadge {
  import Text

  /** The badge text when neither the username nor the email gives a character. */
  const FallbackInitial: string := "U"

  /** The first one or two characters of a non-empty string, upper-cased (`s.slice(0, 2).toUpperCase()`). */
  function LeadingUpper(s: string): (r: string)
    requires |s| >= 1
    ensures 1 <= |r| <= 2
    ensures |r| == if |s| >= 2 then 2 else 1
    ensures r == Text.Upper(s[..|r|])
  {
    if |s| >= 2 then Text.Upper(s[..2]) else Text.Upper(s)
  }

  /** The local part of an address, `email.split("@")[0]`. */
  function LocalPart(email: string): (r: string)
    ensures r == Text.Split(email, '@')[0]
    ensures '@' !in r && r == email[..|r|]
  {
    Text.BeforeFirst(email, '@')
  }

  /**
   * `initialsFromUser`: the trimmed username when it has at least one character, otherwise the
   * local part of the email, otherwise "U"; one or two characters, never lower-case ASCII.
   */
  function InitialsFromUser(email: string, username: string): (r: string)
    ensures 1 <= |r| <= 2
    ensures forall i :: 0 <= i < |r| ==> !('a' <= r[i] <= 'z')
    ensures var u := Text.Strip(username, Text.JsIsSpace);
      |u| > 0 ==> |r| == (if |u| >= 2 then 2 else 1) && r == Text.Upper(u[..|r|])
    ensures var e := LocalPart(email);
      |Text.Strip(username, Text.JsIsSpace)| == 0 && |e| > 0 ==>
        |r| == (if |e| >= 2 then 2 else 1) && r == Text.Upper(e[..|r|])
    ensures |Text.Strip(username, Text.JsIsSpace)| == 0 && |LocalPart(email)| == 0 ==> r == FallbackInitial
  {
    var u := Text.Strip(username, Text.JsIsSpace);
    if |u| >= 1 then LeadingUpper(u)
    else
      var e := LocalPart(email);
      if |e| >= 1 then LeadingUpper(e) else FallbackInitial
  }

  /** A username with any visible character decides the initials alone: the email is never consulted. */
  lemma UsernameWins(email1: string, email2: string, username: string, k: nat)
    requires k < |username| && !Text.JsIsSpace(username[k])
    ensures InitialsFromUser(email1, username) == InitialsFromUser(email2, username)
  {
  }

  /** Only the part of the email before the first "@" matters. */
  lemma DomainIgnored(local: string, domain1: string, domain2: string, username: string)
    requires '@' !in local
    ensures InitialsFromUser(local + "@" + domain1, username) == InitialsFromUser(local + "@" + domain2, username)
  {
    Text.BeforeFirstOfConcat(local, '@', domain1);
    Text.BeforeFirstOfConcat(local, '@', domain2);
  }

  /** 2^32: `>>> 0` reduces the running hash to an unsigned 32-bit integer. */
  const Uint32Modulus: nat := 0x1_0000_0000

  /** The UTF-16 code units of a string, as `charCodeAt` reads them: one per BMP character, a surrogate pair otherwise. */
  function Utf16Units(s: string): (r: seq<nat>)
    ensures |s| <= |r| <= 2 * |s|
    ensures forall i :: 0 <= i < |r| ==> r[i] < 0x1_0000
    ensures (forall i :: 0 <= i < |s| ==> (s[i] as int) < 0x1_0000) ==> r == seq(|s|, i requires 0 <= i < |s| => s[i] as int)
  {
    if |s| == 0 then []
    else
      var c := s[0] as int;
      var head := if c < 0x1_0000 then [c] else [0xD800 + (c - 0x1_0000) / 0x400, 0xDC00 + (c - 0x1_0000) % 0x400];
      head + Utf16Units(s[1..])
  }

  /** The running hash after folding in the given code units from left to right. */
  function HashUnits(units: seq<nat>): (h: nat)
    ensures h < Uint32Modulus
  {
    if |units| == 0 then 0
    else (HashUnits(units[..|units| - 1]) * 31 + units[|units| - 1]) % Uint32Modulus
  }

  /** Folding in one more code unit. */
  lemma HashStep(units: seq<nat>, i: nat)
    requires i < |units|
    ensures HashUnits(units[..i + 1]) == (HashUnits(units[..i]) * 31 + units[i]) % Uint32Modulus
  {
    assert units[..i + 1][..i] == units[..i];
  }

  /** The reference definition: the base-31 polynomial of the code units, unreduced. */
  function Polynomial(units: seq<nat>): nat {
    if |units| == 0 then 0 else Polynomial(units[..|units| - 1]) * 31 + units[|units| - 1]
  }

  /** Reducing before each step or once at the end gives the same residue. */
  lemma ReduceEarly(a: nat, c: nat)
    ensures ((a % Uint32Modulus) * 31 + c) % Uint32Modulus == (a * 31 + c) % Uint32Modulus
  {
    var q := a / Uint32Modulus;
    var m := a % Uint32Modulus;
    assert a == q * Uint32Modulus + m;
    assert a * 31 + c == (q * 31) * Uint32Modulus + (m * 31 + c);
    ModuloIgnoresMultiples(q * 31, m * 31 + c);
  }

  lemma ModuloIgnoresMultiples(k: nat, x: nat)
    ensures (k * Uint32Modulus + x) % Uint32Modulus == x % Uint32Modulus
  {
    var y := k * Uint32Modulus + x;
    assert y == (k + x / Uint32Modulus) * Uint32Modulus + x % Uint32Modulus;
  }

  /** The 32-bit running hash is the polynomial hash reduced modulo 2^32. */
  lemma {:induction false} HashIsPolynomial(units: seq<nat>)
    ensures HashUnits(units) == Polynomial(units) % Uint32Modulus
    decreases |units|
  {
    if |units| > 0 {
      var init := units[..|units| - 1];
      HashIsPolynomial(init);
      ReduceEarly(Polynomial(init), units[|units| - 1]);
    }
  }

  /** The colour string for a hue: `hsl(<hue> 60% 45%)`. */
  function HslColor(hue: nat): string {
    "hsl(" + Text.NatToString(hue) + " 60% 45%)"
  }

  /** The empty string hashes to hue 0. */
  lemma EmptyInputHue()
    ensures HslColor(Polynomial(Utf16Units("")) % Uint32Modulus % 360) == "hsl(0 60% 45%)"
  {
    assert Text.NatToString(0) == "0";
  }

  /** `colorFromString`: the hue is the string's 32-bit hash modulo 360. */
  method ColorFromString(input: string) returns (color: string)
    ensures color == HslColor(Polynomial(Utf16Units(input)) % Uint32Modulus % 360)
    ensures input == "" ==> color == "hsl(0 60% 45%)"
  {
    var units := Utf16Units(input);
    var hash: nat := 0;
    var i := 0;
    while i < |units|
      invariant 0 <= i <= |units|
      invariant hash == HashUnits(units[..i])
    {
      HashStep(units, i);
      hash := (hash * 31 + units[i]) % Uint32Modulus;
      i := i + 1;
    }
    assert units[..i] == units;
    HashIsPolynomial(units);
    color := HslColor(hash % 360);
    if input == "" {
      EmptyInputHue();
    }
  }
}
