/**
 Secrets inside configuration text (config/secret.go): `ENC(secret)` marks a part to be encrypted,
 `ENC[payload]` is an encrypted part. Text is a sequence of bytes, written as characters.
 */
module SecretMarkers {
  import opened Wrappers

  const CIPHER := "ENC["
  const MARKER := "ENC("

  type Nonce = seq<char>

  datatype Error = InvalidCipher | InvalidValue | Undecodable

  /** Sealing with a nonce and encoding, and the reverse; see Lawful. */
  datatype Cipher = Cipher(encode: (Nonce, string) -> string, decode: string -> Result<string, Error>)

  /**
   What is used of AES-GCM and base64url: opening undoes sealing, a payload is non-empty base64url text, and
   whatever opens is base64url (line breaks are skipped by the decoder) and longer than its plaintext.
   */
  ghost predicate Lawful(c: Cipher) {
    && (forall n, p :: c.decode(c.encode(n, p)) == Ok(p))
    && (forall n, p :: IsPayload(c.encode(n, p)))
    && (forall x :: c.decode(x).Ok? ==> |c.decode(x).value| < |x| && Decodable(x))
  }

  /** The base64url alphabet. */
  predicate Encoded(ch: char) {
    'A' <= ch <= 'Z' || 'a' <= ch <= 'z' || '0' <= ch <= '9' || ch == '-' || ch == '_'
  }

  predicate IsPayload(x: string) {
    x != "" && forall i :: 0 <= i < |x| ==> Encoded(x[i])
  }

  predicate Decodable(x: string) {
    forall i :: 0 <= i < |x| ==> Encoded(x[i]) || x[i] == '\r' || x[i] == '\n'
  }

  predicate OccursAt(pattern: string, text: string, i: nat) {
    i + |pattern| <= |text| && text[i..i + |pattern|] == pattern
  }

  /** The first occurrence of a pattern. */
  function Find(pattern: string, text: string): (index: Option<nat>)
    ensures index.None? ==> forall i: nat :: !OccursAt(pattern, text, i)
    ensures index.Some? ==> OccursAt(pattern, text, index.value)
    ensures index.Some? ==> forall i: nat :: i < index.value ==> !OccursAt(pattern, text, i)
    decreases |text|
  {
    if OccursAt(pattern, text, 0) then Some(0)
    else if text == "" then None
    else
      var later := Find(pattern, text[1..]);
      OccursLater(pattern, text);
      if later.None? then None else Some(later.value + 1)
  }

  lemma OccursLater(pattern: string, text: string)
    requires text != ""
    ensures forall i: nat :: i > 0 ==> OccursAt(pattern, text, i) == OccursAt(pattern, text[1..], i - 1)
  {
    forall i: nat | i > 0 && i + |pattern| <= |text|
      ensures OccursAt(pattern, text, i) == OccursAt(pattern, text[1..], i - 1)
    {
      SliceOfTail(text, i, |pattern|);
    }
  }

  lemma SliceOfTail(text: string, i: nat, n: nat)
    requires 0 < i && i + n <= |text|
    ensures text[i..i + n] == text[1..][i - 1..i - 1 + n]
  {
    var whole, tail := text[i..i + n], text[1..][i - 1..i - 1 + n];
    assert |whole| == |tail| == n;
    forall k | 0 <= k < n ensures whole[k] == tail[k] {
    }
  }

  lemma SliceOfSlice(text: string, i: nat, j: nat, a: nat, b: nat)
    requires i <= j <= |text| && a <= b <= j - i
    ensures text[i..j][a..b] == text[i + a..i + b]
  {
    var inner, outer := text[i..j][a..b], text[i + a..i + b];
    assert |inner| == |outer| == b - a;
    forall k | 0 <= k < b - a ensures inner[k] == outer[k] {
      assert inner[k] == text[i..j][a + k] == text[i + (a + k)];
    }
  }

  predicate Contains(text: string, pattern: string) {
    Find(pattern, text).Some?
  }

  function ParseSecret(value: string): Result<string, Error> {
    if !(CIPHER <= value) || value[|value| - 1] != ']' then Err(InvalidValue)
    else
      var content := value[|CIPHER|..|value| - 1];
      if content == "" || ':' in content || ']' in content then Err(InvalidValue) else Ok(content)
  }

  predicate IsEncrypted(value: string) {
    CIPHER <= value && ParseSecret(value).Ok?
  }

  function Token(payload: string): string {
    CIPHER + payload + "]"
  }

  /** A part that is really encrypted; an empty or an already encrypted one is copied. */
  predicate Real(plaintext: string) {
    plaintext != "" && !IsEncrypted(plaintext)
  }

  function Encrypt(c: Option<Cipher>, nonce: Nonce, plaintext: string): Result<string, Error> {
    if !Real(plaintext) then Ok(plaintext)
    else if c.None? then Err(InvalidCipher)
    else Ok(Token(c.value.encode(nonce, plaintext)))
  }

  function DecryptToken(c: Cipher, token: string): Result<string, Error> {
    var payload := ParseSecret(token);
    if payload.Err? then payload else c.decode(payload.value)
  }

  /** The first `open ... close` of a text, if any. */
  datatype Cut = Whole | Unclosed | Cut(before: string, inside: string, after: string)

  function CutAt(open: string, close: char, text: string): (cut: Cut)
    ensures cut.Cut? ==> |cut.after| < |text|
    ensures cut.Whole? <==> !Contains(text, open)
  {
    var found := Find(open, text);
    if found.None? then Whole
    else
      var start := found.value + |open|;
      var ending := Find([close], text[start..]);
      if ending.None? then Unclosed
      else
        var end := start + ending.value;
        Cut(text[..found.value], text[start..end], text[end + 1..])
  }

  lemma Recompose(open: string, close: char, text: string, i: nat, end: nat)
    requires OccursAt(open, text, i) && i + |open| <= end < |text|
    requires OccursAt([close], text[i + |open|..], end - i - |open|)
    ensures text == text[..i] + open + text[i + |open|..end] + [close] + text[end + 1..]
  {
    var tail := text[i + |open|..];
    assert tail[end - i - |open|..end - i - |open| + 1] == [close];
    assert text[end] == close;
    assert text == text[..i] + text[i..i + |open|] + text[i + |open|..end] + [text[end]] + text[end + 1..];
  }

  // What the two loops compute, by recursion on the text that is left.

  function Prefixed(before: string, rest: Result<string, Error>): Result<string, Error> {
    if rest.Err? then rest else Ok(before + rest.value)
  }

  function DecryptText(c: Cipher, text: string): Result<string, Error>
    decreases |text|
  {
    match CutAt(CIPHER, ']', text)
    case Whole => Ok(text)
    case Unclosed => Err(InvalidValue)
    case Cut(before, payload, after) =>
      var plaintext := DecryptToken(c, Token(payload));
      if plaintext.Err? then plaintext else Prefixed(before + plaintext.value, DecryptText(c, after))
  }

  function Drawn(drawn: nat, secret: string): nat {
    if Real(secret) then drawn + 1 else drawn
  }

  /** `drawn` random nonces have been used for the text before this one. */
  function EncryptText(c: Option<Cipher>, nonces: nat -> Nonce, drawn: nat, text: string): Result<string, Error>
    decreases |text|
  {
    match CutAt(MARKER, ')', text)
    case Whole => Ok(text)
    case Unclosed => Err(InvalidValue)
    case Cut(before, secret, after) =>
      var encrypted := Encrypt(c, nonces(drawn), secret);
      if encrypted.Err? then encrypted
      else Prefixed(before + encrypted.value, EncryptText(c, nonces, Drawn(drawn, secret), after))
  }

  // The structure of a text.

  /** A text cut at its markers: `before ENC(secret)` over and over, then a tail. */
  datatype Doc = Tail(text: string) | Marker(before: string, secret: string, rest: Doc)

  function Source(d: Doc): string {
    match d
    case Tail(text) => text
    case Marker(before, secret, rest) => before + MARKER + secret + ")" + Source(rest)
  }

  /** The same text without the markers around its secrets. */
  function Strip(d: Doc): string {
    match d
    case Tail(text) => text
    case Marker(before, secret, rest) => before + secret + Strip(rest)
  }

  /** What stands for one part. */
  function SealedPart(c: Cipher, nonce: Nonce, secret: string): string {
    if Real(secret) then Token(c.encode(nonce, secret)) else secret
  }

  /** The same text with its secrets sealed. */
  function Sealed(c: Cipher, nonces: nat -> Nonce, drawn: nat, d: Doc): string
    decreases d
  {
    match d
    case Tail(text) => text
    case Marker(before, secret, rest) =>
      before + SealedPart(c, nonces(drawn), secret) + Sealed(c, nonces, Drawn(drawn, secret), rest)
  }

  /** The way to cut a text that has every marker start where it first can and end at the first bracket. */
  predicate Proper(d: Doc) {
    match d
    case Tail(text) => !Contains(text, MARKER)
    case Marker(before, secret, rest) =>
      Find(MARKER, before + MARKER) == Some(|before|) && ')' !in secret && Proper(rest)
  }

  /** None when a marker is never closed. */
  function Scan(text: string): Option<Doc>
    decreases |text|
  {
    match CutAt(MARKER, ')', text)
    case Whole => Some(Tail(text))
    case Unclosed => None
    case Cut(before, secret, after) =>
      var rest := Scan(after);
      if rest.None? then None else Some(Marker(before, secret, rest.value))
  }

  // Finding.

  lemma FindFirst(pattern: string, text: string, i: nat)
    requires OccursAt(pattern, text, i) && forall j: nat :: j < i ==> !OccursAt(pattern, text, j)
    ensures Find(pattern, text) == Some(i)
  {
  }

  lemma FindByte(b: char, text: string, i: nat)
    requires i < |text| && text[i] == b && b !in text[..i]
    ensures Find([b], text) == Some(i)
  {
    assert OccursAt([b], text, i);
    forall j: nat | j < i ensures !OccursAt([b], text, j) {
      assert text[..i][j] != b;
    }
    FindFirst([b], text, i);
  }

  /** No occurrence straddles the start of another one, as neither pattern repeats its first letter. */
  lemma FindAfter(pattern: string, before: string, rest: string)
    requires pattern == MARKER || pattern == CIPHER
    requires pattern <= rest && !Contains(before, pattern)
    ensures Find(pattern, before + rest) == Some(|before|)
  {
    var text := before + rest;
    assert OccursAt(pattern, text, |before|);
    forall j: nat | j < |before| ensures !OccursAt(pattern, text, j) {
      NoStraddle(pattern, before, rest, j);
    }
    FindFirst(pattern, text, |before|);
  }

  lemma NoStraddle(pattern: string, before: string, rest: string, j: nat)
    requires pattern == MARKER || pattern == CIPHER
    requires rest != [] && rest[0] == 'E' && j < |before|
    ensures OccursAt(pattern, before + rest, j) ==> OccursAt(pattern, before, j)
  {
    var text := before + rest;
    if j + 4 <= |before| {
      assert text[j..j + 4] == before[j..j + 4];
    } else if j + 4 <= |text| {
      assert text[j..j + 4][|before| - j] == rest[0];
    }
  }

  // Cutting a text and encrypting its parts.

  lemma FirstInPrefix(pattern: string, text: string, i: nat)
    requires Find(pattern, text) == Some(i)
    ensures Find(pattern, text[..i + |pattern|]) == Some(i)
  {
    var prefix := text[..i + |pattern|];
    assert prefix[i..i + |pattern|] == text[i..i + |pattern|];
    forall j: nat | j < i ensures !OccursAt(pattern, prefix, j) {
      assert !OccursAt(pattern, text, j);
      assert j + |pattern| <= |prefix| ==> prefix[j..j + |pattern|] == text[j..j + |pattern|];
    }
    FindFirst(pattern, prefix, i);
  }

  lemma FirstExtended(pattern: string, before: string, after: string)
    requires Find(pattern, before + pattern) == Some(|before|)
    ensures Find(pattern, before + pattern + after) == Some(|before|)
  {
    var text, prefix := before + pattern + after, before + pattern;
    assert text[|before|..|before| + |pattern|] == pattern;
    forall j: nat | j < |before| ensures !OccursAt(pattern, text, j) {
      assert !OccursAt(pattern, prefix, j);
      assert text[j..j + |pattern|] == prefix[j..j + |pattern|];
    }
    FindFirst(pattern, text, |before|);
  }

  /** A cut takes the first opening and the first closing after it. */
  lemma CutMeaning(open: string, close: char, text: string)
    requires CutAt(open, close, text).Cut?
    ensures var cut := CutAt(open, close, text);
            && Find(open, cut.before + open) == Some(|cut.before|) && close !in cut.inside
            && text == cut.before + open + cut.inside + [close] + cut.after
  {
    hide Find;
    var i := Find(open, text).value;
    var tail := text[i + |open|..];
    var k := Find([close], tail).value;
    FirstInPrefix(open, text, i);
    assert text[..i] + open == text[..i + |open|];
    FoundByte(close, tail);
    Recompose(open, close, text, i, i + |open| + k);
    assert tail[..k] == text[i + |open|..i + |open| + k];
  }

  lemma FoundByte(b: char, text: string)
    requires Find([b], text).Some?
    ensures b !in text[..Find([b], text).value]
  {
    forall k | 0 <= k < Find([b], text).value ensures text[k] != b {
      assert !OccursAt([b], text, k);
      assert text[k..k + 1] == [text[k]];
    }
  }

  lemma CutIs(open: string, close: char, before: string, inside: string, after: string)
    requires Find(open, before + open) == Some(|before|) && close !in inside
    ensures CutAt(open, close, before + open + inside + [close] + after) == Cut(before, inside, after)
  {
    hide Find;
    var tail := inside + [close] + after;
    var text := before + open + tail;
    assert text == before + open + inside + [close] + after;
    FirstExtended(open, before, tail);
    assert text[|before| + |open|..] == tail;
    assert tail[..|inside|] == inside;
    FindByte(close, tail, |inside|);
  }

  lemma {:induction false} ScanMeaning(text: string)
    requires Scan(text).Some?
    ensures Source(Scan(text).value) == text && Proper(Scan(text).value)
    decreases |text|
  {
    hide CutAt, Find;
    var cut := CutAt(MARKER, ')', text);
    if cut.Cut? {
      CutMeaning(MARKER, ')', text);
      ScanMeaning(cut.after);
      assert text == cut.before + MARKER + cut.inside + ")" + cut.after;
    }
  }

  /** The cut of a text is the only proper one. */
  lemma {:induction false} SourceScans(d: Doc)
    requires Proper(d)
    ensures Scan(Source(d)) == Some(d)
  {
    hide CutAt, Find;
    if d.Marker? {
      CutIs(MARKER, ')', d.before, d.secret, Source(d.rest));
      assert Source(d) == d.before + MARKER + d.secret + [')'] + Source(d.rest);
      SourceScans(d.rest);
    }
  }

  /** Encryption fails exactly on an unclosed marker, and otherwise seals the marked parts and nothing else. */
  lemma {:induction false} EncryptionSeals(c: Cipher, nonces: nat -> Nonce, drawn: nat, text: string)
    ensures EncryptText(Some(c), nonces, drawn, text) ==
            if Scan(text).None? then Err(InvalidValue) else Ok(Sealed(c, nonces, drawn, Scan(text).value))
    decreases |text|
  {
    hide CutAt, Find, ParseSecret, IsEncrypted;
    var cut := CutAt(MARKER, ')', text);
    if cut.Cut? {
      EncryptionSeals(c, nonces, Drawn(drawn, cut.inside), cut.after);
    }
  }

  // Nonces and keys.

  /** The secrets of a text that are really encrypted, in order. */
  function RealSecrets(d: Doc): seq<string> {
    match d
    case Tail(_) => []
    case Marker(_, secret, rest) => (if Real(secret) then [secret] else []) + RealSecrets(rest)
  }

  /** The text with `parts` in place of those secrets, one by one, and all other markers stripped. */
  function Fill(d: Doc, parts: seq<string>): string
    requires |parts| == |RealSecrets(d)|
  {
    match d
    case Tail(text) => text
    case Marker(before, secret, rest) =>
      if Real(secret) then before + parts[0] + Fill(rest, parts[1..]) else before + secret + Fill(rest, parts)
  }

  /** Every part is a secret sealed with the nonce of its own number, counted from `first`. */
  predicate SealedApart(c: Cipher, nonces: nat -> Nonce, first: nat, secrets: seq<string>, parts: seq<string>) {
    |parts| == |secrets| && forall n :: 0 <= n < |parts| ==> parts[n] == "ENC[" + c.encode(nonces(first + n), secrets[n]) + "]"
  }

  lemma ApartLength(c: Cipher, nonces: nat -> Nonce, first: nat, secrets: seq<string>, parts: seq<string>)
    requires SealedApart(c, nonces, first, secrets, parts)
    ensures |parts| == |secrets|
  {
  }

  lemma SealedFirst(c: Cipher, nonces: nat -> Nonce, first: nat, secret: string, secrets: seq<string>, parts: seq<string>)
    requires SealedApart(c, nonces, first + 1, secrets, parts)
    ensures SealedApart(c, nonces, first, [secret] + secrets, [Token(c.encode(nonces(first), secret))] + parts)
  {
    var longer := [Token(c.encode(nonces(first), secret))] + parts;
    forall n | 0 <= n < |longer|
      ensures longer[n] == "ENC[" + c.encode(nonces(first + n), ([secret] + secrets)[n]) + "]"
    {
      if n > 0 {
        assert parts[n - 1] == "ENC[" + c.encode(nonces(first + 1 + (n - 1)), secrets[n - 1]) + "]";
      }
    }
  }

  lemma {:induction false} SealedInOrder(c: Cipher, nonces: nat -> Nonce, drawn: nat, d: Doc) returns (parts: seq<string>)
    ensures SealedApart(c, nonces, drawn, RealSecrets(d), parts)
    ensures Sealed(c, nonces, drawn, d) == Fill(d, parts)
    decreases d
  {
    match d
    case Tail(_) => parts := [];
    case Marker(before, secret, rest) =>
      hide Real, SealedApart, Token;
      if Real(secret) {
        var later := SealedInOrder(c, nonces, drawn + 1, rest);
        parts := [Token(c.encode(nonces(drawn), secret))] + later;
        SealedFirst(c, nonces, drawn, secret, RealSecrets(rest), later);
        ApartLength(c, nonces, drawn + 1, RealSecrets(rest), later);
        assert parts[1..] == later;
      } else {
        parts := SealedInOrder(c, nonces, drawn, rest);
        ApartLength(c, nonces, drawn, RealSecrets(rest), parts);
        assert [] + RealSecrets(rest) == RealSecrets(rest);
      }
  }

  /**
   The n-th secret that is really encrypted is sealed with the n-th nonce drawn, so no two secrets of a text
   ever share one, and nothing but the secrets is touched.
   */
  lemma FreshNonces(c: Cipher, nonces: nat -> Nonce, text: string, d: Doc) returns (parts: seq<string>)
    requires Scan(text) == Some(d)
    ensures SealedApart(c, nonces, 0, RealSecrets(d), parts)
    ensures EncryptText(Some(c), nonces, 0, text) == Ok(Fill(d, parts))
  {
    hide Scan, EncryptText, RealSecrets, Sealed, Fill;
    EncryptionSeals(c, nonces, 0, text);
    parts := SealedInOrder(c, nonces, 0, d);
  }

  /** Without a key, encryption succeeds exactly on text with all markers closed and nothing to encrypt in them. */
  lemma {:induction false} KeylessEncryption(nonces: nat -> Nonce, drawn: nat, text: string)
    ensures var result, doc := EncryptText(None, nonces, drawn, text), Scan(text);
            && (result.Ok? <==> doc.Some? && RealSecrets(doc.value) == [])
            && (result.Ok? ==> result.value == Fill(doc.value, []))
            && (doc.Some? && RealSecrets(doc.value) != [] ==> result == Err(InvalidCipher))
    decreases |text|
  {
    hide CutAt, Find, ParseSecret, IsEncrypted;
    var cut := CutAt(MARKER, ')', text);
    if cut.Cut? {
      KeylessEncryption(nonces, Drawn(drawn, cut.inside), cut.after);
    }
  }

  predicate PayloadForm(payload: string) {
    payload != "" && ':' !in payload && ']' !in payload
  }

  /**
   A part is left as it is exactly if it is empty or encrypted already, and encrypted text is `ENC[payload]` with
   a payload that is not empty and holds neither `:` nor `]`.
   */
  lemma EncryptedExactly(value: string)
    ensures IsEncrypted(value) <==> exists payload :: value == "ENC[" + payload + "]" && PayloadForm(payload)
    ensures forall payload :: value == "ENC[" + payload + "]" && PayloadForm(payload) ==> ParseSecret(value) == Ok(payload)
    ensures !IsEncrypted(value) ==> ParseSecret(value) == Err(InvalidValue)
    ensures !Real(value) <==> value == "" || exists payload :: value == "ENC[" + payload + "]" && PayloadForm(payload)
  {
    if IsEncrypted(value) {
      var payload := value[4..|value| - 1];
      assert value == value[..4] + value[4..|value| - 1] + [value[|value| - 1]];
      assert value == "ENC[" + payload + "]" && PayloadForm(payload);
    }
    forall payload | value == "ENC[" + payload + "]" && PayloadForm(payload) ensures ParseSecret(value) == Ok(payload) {
      assert value[4..|value| - 1] == payload;
    }
  }

  /** Reading a text from its first token on: a token that is malformed or does not open fails the whole text. */
  lemma ReadOn(c: Cipher, before: string, payload: string, after: string)
    requires Find("ENC[", before + "ENC[") == Some(|before|) && ']' !in payload
    ensures DecryptText(c, before + "ENC[" + payload + "]" + after) ==
            if !PayloadForm(payload) then Err(InvalidValue)
            else if c.decode(payload).Err? then c.decode(payload)
            else Prefixed(before + c.decode(payload).value, DecryptText(c, after))
  {
    hide Find, CutAt;
    CutIs(CIPHER, ']', before, payload, after);
    assert before + "ENC[" + payload + "]" + after == before + CIPHER + payload + [']'] + after;
    assert Token(payload)[|CIPHER|..|Token(payload)| - 1] == payload;
  }

  /** A text without a token is read as it is, and one whose last token is never closed is refused. */
  lemma ReadEnd(c: Cipher, before: string, after: string)
    ensures !Contains(before, "ENC[") ==> DecryptText(c, before) == Ok(before)
    ensures Find("ENC[", before + "ENC[") == Some(|before|) && ']' !in after ==>
              DecryptText(c, before + "ENC[" + after) == Err(InvalidValue)
  {
    if Find("ENC[", before + "ENC[") == Some(|before|) && ']' !in after {
      hide Find;
      var text := before + "ENC[" + after;
      FirstExtended("ENC[", before, after);
      assert text[|before| + 4..] == after;
      forall k: nat | k < |after| ensures !OccursAt("]", after, k) {
        assert after[k..k + 1] == [after[k]];
      }
    }
  }

  // The loops.

  /** Two searches find the cut. */
  lemma CutFound(open: string, close: char, text: string, i: nat)
    requires Find(open, text) == Some(i)
    ensures var ending := Find([close], text[i + |open|..]);
            CutAt(open, close, text) ==
            if ending.None? then Unclosed
            else Cut(text[..i], text[i + |open|..i + |open| + ending.value], text[i + |open| + ending.value + 1..])
  {
    hide Find, Contains, OccursAt;
  }

  /** The encryption loop, marker by marker; `marked` tells whether there was any. */
  method EncryptMarkedValue(c: Option<Cipher>, nonces: nat -> Nonce, value: string)
    returns (result: Result<string, Error>, marked: bool)
    ensures result == EncryptText(c, nonces, 0, value)
    ensures marked == Contains(value, MARKER)
  {
    hide Find, CutAt, Encrypt, EncryptText, Drawn;
    if !Contains(value, MARKER) {
      NothingToSeal(c, nonces, 0, value);
      return Ok(value), false;
    }
    marked := true;
    var builder, cursor, drawn := "", 0, 0;
    var relativeStart := Find(MARKER, value[cursor..]);
    assert value[0..] == value;
    PrefixedAgain("", "", EncryptText(c, nonces, 0, value));
    while relativeStart.Some?
      invariant 0 <= cursor <= |value| && relativeStart == Find(MARKER, value[cursor..])
      invariant EncryptText(c, nonces, 0, value) == Prefixed(builder, EncryptText(c, nonces, drawn, value[cursor..]))
      decreases |value| - cursor
    {
      ghost var left := value[cursor..];
      var start := cursor + relativeStart.value;
      var relativeEnd := Find(")", value[start + |MARKER|..]);
      SealStep(c, nonces, drawn, left, relativeStart.value);
      assert value[start + |MARKER|..] == left[relativeStart.value + |MARKER|..];
      if relativeEnd.None? {
        return Err(InvalidValue), true;
      }
      var end := start + |MARKER| + relativeEnd.value;
      var plaintext := value[start + |MARKER|..end];
      assert plaintext == left[relativeStart.value + |MARKER|..end - cursor];
      assert value[end + 1..] == left[end + 1 - cursor..] && value[cursor..start] == left[..relativeStart.value];
      var encrypted := Encrypt(c, nonces(drawn), plaintext);
      if encrypted.Err? {
        return encrypted, true;
      }
      PrefixedAgain(builder, value[cursor..start] + encrypted.value,
                    EncryptText(c, nonces, Drawn(drawn, plaintext), value[end + 1..]));
      builder := builder + (value[cursor..start] + encrypted.value);
      drawn := Drawn(drawn, plaintext);
      cursor := end + 1;
      relativeStart := Find(MARKER, value[cursor..]);
    }
    NothingToSeal(c, nonces, drawn, value[cursor..]);
    result := Ok(builder + value[cursor..]);
  }

  lemma PrefixedAgain(a: string, b: string, rest: Result<string, Error>)
    ensures Prefixed(a, Prefixed(b, rest)) == Prefixed(a + b, rest) && Prefixed("", rest) == rest
  {
    if rest.Ok? {
      assert a + (b + rest.value) == (a + b) + rest.value && "" + rest.value == rest.value;
    }
  }

  lemma NothingToRead(c: Cipher, text: string)
    requires !Contains(text, CIPHER)
    ensures DecryptText(c, text) == Ok(text)
  {
  }

  lemma NothingToSeal(c: Option<Cipher>, nonces: nat -> Nonce, drawn: nat, text: string)
    requires !Contains(text, MARKER)
    ensures EncryptText(c, nonces, drawn, text) == Ok(text)
  {
  }

  /** One turn of the encryption loop. */
  lemma SealStep(c: Option<Cipher>, nonces: nat -> Nonce, drawn: nat, text: string, i: nat)
    requires Find(MARKER, text) == Some(i)
    ensures var ending := Find(")", text[i + |MARKER|..]);
            EncryptText(c, nonces, drawn, text) ==
            if ending.None? then Err(InvalidValue)
            else
              var end := i + |MARKER| + ending.value;
              var secret := text[i + |MARKER|..end];
              var encrypted := Encrypt(c, nonces(drawn), secret);
              if encrypted.Err? then encrypted
              else Prefixed(text[..i] + encrypted.value,
                            EncryptText(c, nonces, Drawn(drawn, secret), text[end + 1..]))
  {
    hide Find, CutAt, Encrypt, Drawn;
    CutFound(MARKER, ')', text, i);
  }

  lemma TokenAt(text: string, i: nat, length: nat)
    requires OccursAt(CIPHER, text, i) && OccursAt("]", text[i + |CIPHER|..], length)
    ensures text[i..i + |CIPHER| + length + 1] == Token(text[i + |CIPHER|..i + |CIPHER| + length])
  {
    var start := i + |CIPHER|;
    var whole, payload := text[i..start + length + 1], text[start..start + length];
    assert text[start..][length..length + 1] == "]";
    assert text[start + length] == text[start..][length] == ']';
    SliceOfSlice(text, i, start + length + 1, 0, |CIPHER|);
    SliceOfSlice(text, i, start + length + 1, |CIPHER|, |CIPHER| + length);
    assert whole[..|CIPHER|] == text[i..start] && whole[|CIPHER|..|CIPHER| + length] == payload;
    assert whole == whole[..|CIPHER|] + whole[|CIPHER|..|CIPHER| + length] + [whole[|CIPHER| + length]];
  }

  /** One turn of the decryption loop. */
  lemma OpenStep(c: Cipher, text: string, i: nat)
    requires Find(CIPHER, text) == Some(i)
    ensures var ending := Find("]", text[i..]);
            DecryptText(c, text) ==
            if ending.None? then Err(InvalidValue)
            else
              var end := i + ending.value + 1;
              var plaintext := DecryptToken(c, text[i..end]);
              if plaintext.Err? then plaintext
              else Prefixed(text[..i] + plaintext.value, DecryptText(c, text[end..]))
  {
    hide Find, CutAt, DecryptToken;
    CutFound(CIPHER, ']', text, i);
    CloseAfterOpen(text[i..]);
    assert text[i..][|CIPHER|..] == text[i + |CIPHER|..];
    var ending := Find("]", text[i + |CIPHER|..]);
    if ending.Some? {
      TokenAt(text, i, ending.value);
    }
  }

  /** The decryption loop, token by token. */
  method DecryptSecretValue(c: Cipher, value: string) returns (result: Result<string, Error>)
    ensures result == DecryptText(c, value)
  {
    hide Find, CutAt, DecryptToken, DecryptText;
    var builder, cursor := "", 0;
    var relativeStart := Find(CIPHER, value[cursor..]);
    assert value[0..] == value;
    PrefixedAgain("", "", DecryptText(c, value));
    while relativeStart.Some?
      invariant 0 <= cursor <= |value| && relativeStart == Find(CIPHER, value[cursor..])
      invariant DecryptText(c, value) == Prefixed(builder, DecryptText(c, value[cursor..]))
      invariant cursor == 0 ==> builder == ""
      decreases |value| - cursor
    {
      ghost var left := value[cursor..];
      var start := cursor + relativeStart.value;
      var relativeEnd := Find("]", value[start..]);
      OpenStep(c, left, relativeStart.value);
      assert value[start..] == left[relativeStart.value..];
      if relativeEnd.None? {
        return Err(InvalidValue);
      }
      var end := start + relativeEnd.value + 1;
      assert value[start..end] == left[relativeStart.value..end - cursor];
      assert value[end..] == left[end - cursor..] && value[cursor..start] == left[..relativeStart.value];
      var plaintext := DecryptToken(c, value[start..end]);
      if plaintext.Err? {
        return plaintext;
      }
      PrefixedAgain(builder, value[cursor..start] + plaintext.value, DecryptText(c, value[end..]));
      builder := builder + (value[cursor..start] + plaintext.value);
      cursor := end;
      relativeStart := Find(CIPHER, value[cursor..]);
    }
    NothingToRead(c, value[cursor..]);
    if cursor == 0 {
      return Ok(value);
    }
    result := Ok(builder + value[cursor..]);
  }

  /** Looking for the closing bracket from the start of a token or after its opening is the same. */
  lemma CloseAfterOpen(text: string)
    requires CIPHER <= text
    ensures var whole, inner := Find("]", text), Find("]", text[|CIPHER|..]);
            whole == if inner.None? then None else Some(|CIPHER| + inner.value)
  {
    hide Find;
    var inner := Find("]", text[|CIPHER|..]);
    forall i: nat | i < |CIPHER| ensures !OccursAt("]", text, i) {
      assert text[i..i + 1] == [CIPHER[i]];
    }
    forall i: nat | |CIPHER| <= i < |text|
      ensures OccursAt("]", text, i) == OccursAt("]", text[|CIPHER|..], i - |CIPHER|)
    {
      assert text[i..i + 1] == text[|CIPHER|..][i - |CIPHER|..i - |CIPHER| + 1];
    }
    if inner.Some? {
      FindFirst("]", text, |CIPHER| + inner.value);
    }
  }

  /** Plain text is returned as it is, even without a key. */
  method Decrypt(c: Option<Cipher>, value: string) returns (result: Result<string, Error>)
    ensures c.Some? ==> result == DecryptText(c.value, value)
    ensures c.None? ==> result == if Contains(value, CIPHER) then Err(InvalidCipher) else Ok(value)
  {
    if value == "" || !Contains(value, CIPHER) {
      return Ok(value);
    }
    if c.None? {
      return Err(InvalidCipher);
    }
    result := DecryptSecretValue(c.value, value);
  }
}
