/**
 What the markers promise (config/secret.go): when decryption undoes encryption, and when a second
 encryption has nothing to do, for every text whose markers are closed.
 */
module SecretMarkerLaws {
  import opened Wrappers
  import opened SecretMarkers

  // Parts that are copied rather than encrypted join the plain text around them.

  function Lead(x: string, d: Doc): Doc {
    match d
    case Tail(text) => Tail(x + text)
    case Marker(before, secret, rest) => Marker(x + before, secret, rest)
  }

  /** Cut only at the parts that are really encrypted. */
  function Glue(d: Doc): Doc {
    match d
    case Tail(_) => d
    case Marker(before, secret, rest) =>
      if Real(secret) then Marker(before, secret, Glue(rest)) else Lead(before + secret, Glue(rest))
  }

  predicate AllReal(d: Doc) {
    d.Marker? ==> Real(d.secret) && AllReal(d.rest)
  }

  /** No stretch of plain text holds the pattern. */
  predicate Clean(d: Doc, pattern: string) {
    match d
    case Tail(text) => !Contains(text, pattern)
    case Marker(before, _, rest) => !Contains(before, pattern) && Clean(rest, pattern)
  }

  lemma LeadKeeps(c: Cipher, nonces: nat -> Nonce, drawn: nat, x: string, d: Doc)
    ensures Strip(Lead(x, d)) == x + Strip(d)
    ensures Sealed(c, nonces, drawn, Lead(x, d)) == x + Sealed(c, nonces, drawn, d)
    ensures AllReal(Lead(x, d)) <==> AllReal(d)
  {
    hide Real;
    if d.Marker? {
      assert (x + d.before) + d.secret + Strip(d.rest) == x + (d.before + d.secret + Strip(d.rest));
      var part := SealedPart(c, nonces(drawn), d.secret);
      var rest := Sealed(c, nonces, Drawn(drawn, d.secret), d.rest);
      assert (x + d.before) + part + rest == x + (d.before + part + rest);
    }
  }

  lemma {:induction false} GlueKeeps(c: Cipher, nonces: nat -> Nonce, drawn: nat, d: Doc)
    ensures AllReal(Glue(d)) && Strip(Glue(d)) == Strip(d)
    ensures Sealed(c, nonces, drawn, Glue(d)) == Sealed(c, nonces, drawn, d)
    decreases d
  {
    hide Real;
    if d.Marker? {
      GlueKeeps(c, nonces, Drawn(drawn, d.secret), d.rest);
      if !Real(d.secret) {
        LeadKeeps(c, nonces, drawn, d.before + d.secret, Glue(d.rest));
      }
    }
  }

  // Reading back.

  lemma TokenParses(payload: string)
    requires IsPayload(payload)
    ensures ParseSecret(Token(payload)) == Ok(payload) && ']' !in payload
  {
    var token := Token(payload);
    assert token[|CIPHER|..|token| - 1] == payload && token[..|CIPHER|] == CIPHER;
  }

  /** The next token is read where it was written when no token starts before it. */
  lemma ReadToken(c: Cipher, nonce: Nonce, before: string, secret: string, rest: string)
    requires Lawful(c) && !Contains(before, CIPHER)
    ensures DecryptText(c, before + Token(c.encode(nonce, secret)) + rest) ==
            Prefixed(before + secret, DecryptText(c, rest))
  {
    hide CutAt, Find, ParseSecret;
    var payload := c.encode(nonce, secret);
    TokenParses(payload);
    FindAfter(CIPHER, before, CIPHER);
    CutIs(CIPHER, ']', before, payload, rest);
    assert before + Token(payload) + rest == before + CIPHER + payload + [']'] + rest;
  }

  lemma {:induction false} CleanRoundTrip(c: Cipher, nonces: nat -> Nonce, drawn: nat, d: Doc)
    requires Lawful(c) && AllReal(d) && Clean(d, CIPHER)
    ensures DecryptText(c, Sealed(c, nonces, drawn, d)) == Ok(Strip(d))
    decreases d
  {
    hide CutAt, Find, Lawful, Real;
    match d
    case Tail(_) =>
    case Marker(before, secret, rest) =>
      CleanRoundTrip(c, nonces, drawn + 1, rest);
      ReadToken(c, nonces(drawn), before, secret, Sealed(c, nonces, drawn + 1, rest));
  }

  // Plain text that looks like a token.

  function Block(d: Doc): string {
    if d.Tail? then d.text else d.before
  }

  function Markers(d: Doc): nat {
    if d.Tail? then 0 else 1 + Markers(d.rest)
  }

  function DropBlock(d: Doc, n: nat): Doc
    requires n <= |Block(d)|
  {
    match d
    case Tail(text) => Tail(text[n..])
    case Marker(before, secret, rest) => Marker(before[n..], secret, rest)
  }

  /** The text after the first block. */
  function AfterBlock(c: Cipher, nonces: nat -> Nonce, drawn: nat, d: Doc): string {
    if d.Tail? then ""
    else SealedPart(c, nonces(drawn), d.secret) + Sealed(c, nonces, Drawn(drawn, d.secret), d.rest)
  }

  lemma DropKeeps(c: Cipher, nonces: nat -> Nonce, drawn: nat, d: Doc, n: nat)
    requires n <= |Block(d)|
    ensures Sealed(c, nonces, drawn, d) == Block(d) + AfterBlock(c, nonces, drawn, d)
    ensures Sealed(c, nonces, drawn, DropBlock(d, n)) == Block(d)[n..] + AfterBlock(c, nonces, drawn, d)
    ensures |Strip(DropBlock(d, n))| == |Strip(d)| - n && |Block(DropBlock(d, n))| == |Block(d)| - n
    ensures Markers(DropBlock(d, n)) == Markers(d)
    ensures AllReal(DropBlock(d, n)) <==> AllReal(d)
  {
    hide Real;
    if d.Marker? {
      var part := SealedPart(c, nonces(drawn), d.secret);
      var rest := Sealed(c, nonces, Drawn(drawn, d.secret), d.rest);
      assert d.before + part + rest == d.before + (part + rest);
      assert d.before[n..] + part + rest == d.before[n..] + (part + rest);
    }
  }

  lemma CutUnclosed(open: string, close: char, before: string, after: string)
    requires Find(open, before + open) == Some(|before|) && close !in after
    ensures CutAt(open, close, before + open + after) == Unclosed
  {
    var text := before + open + after;
    FirstExtended(open, before, after);
    assert text[|before| + |open|..] == after;
    forall k: nat | k < |after| ensures !OccursAt([close], after, k) {
      assert after[k..k + 1] == [after[k]];
    }
  }

  /** A token found in plain text and read whole: its plaintext is shorter than it is. */
  lemma ReadForeign(c: Cipher, before: string, inside: string, after: string)
    requires Lawful(c) && Find(CIPHER, before + CIPHER) == Some(|before|) && ']' !in inside
    ensures var read := DecryptText(c, before + CIPHER + inside + "]" + after);
            read.Ok? ==> DecryptText(c, after).Ok? && Decodable(inside)
                         && |read.value| < |before| + |inside| + |DecryptText(c, after).value|
  {
    hide CutAt, Find;
    CutIs(CIPHER, ']', before, inside, after);
    assert before + CIPHER + inside + "]" + after == before + CIPHER + inside + [']'] + after;
    var token := Token(inside);
    assert token[|CIPHER|..|token| - 1] == inside;
    assert c.decode(inside).Ok? ==> |c.decode(inside).value| < |inside| && Decodable(inside);
  }

  /** A token that runs from plain text into a genuine one never opens: it holds a bracket. */
  lemma ReadMerged(c: Cipher, before: string, mid: string, payload: string, after: string)
    requires Lawful(c) && Find(CIPHER, before + CIPHER) == Some(|before|) && ']' !in mid && IsPayload(payload)
    ensures DecryptText(c, before + CIPHER + mid + Token(payload) + after).Err?
  {
    hide CutAt, Find;
    var inside := mid + CIPHER + payload;
    TokenParses(payload);
    assert inside[|mid| + 3] == '[';
    ReadForeign(c, before, inside, after);
    assert before + CIPHER + mid + Token(payload) + after == before + CIPHER + inside + "]" + after;
  }

  lemma SplitBlock(block: string, i: nat)
    requires Find(CIPHER, block) == Some(i)
    ensures block == block[..i] + CIPHER + block[i + |CIPHER|..]
    ensures Find(CIPHER, block[..i] + CIPHER) == Some(i)
  {
    FirstInPrefix(CIPHER, block, i);
    assert block[..i] + CIPHER == block[..i + |CIPHER|];
    assert block == block[..i + |CIPHER|] + block[i + |CIPHER|..];
  }

  /** Decrypting a sealed text never lengthens it, and shortens it if its plain text holds a token start. */
  lemma {:induction false} Shrinks(c: Cipher, nonces: nat -> Nonce, drawn: nat, d: Doc)
    requires Lawful(c) && AllReal(d)
    ensures var read := DecryptText(c, Sealed(c, nonces, drawn, d));
            read.Ok? ==> |read.value| <= |Strip(d)| && (Clean(d, CIPHER) || |read.value| < |Strip(d)|)
    decreases Markers(d), |Block(d)|
  {
    hide Find, CutAt, Lawful, Real, DecryptText;
    var found := Find(CIPHER, Block(d));
    if found.Some? {
      ShrinksAt(c, nonces, drawn, d, found.value);
    } else if d.Marker? {
      Shrinks(c, nonces, drawn + 1, d.rest);
      ReadToken(c, nonces(drawn), d.before, d.secret, Sealed(c, nonces, drawn + 1, d.rest));
    } else {
      NothingToRead(c, d.text);
    }
  }

  /** The step over a token in the first block. */
  lemma ForeignStep(c: Cipher, nonces: nat -> Nonce, drawn: nat, d: Doc, i: nat, k: nat)
    requires Lawful(c) && Find(CIPHER, Block(d)) == Some(i) && i + |CIPHER| + k < |Block(d)|
    requires Block(d)[i + |CIPHER| + k] == ']' && ']' !in Block(d)[i + |CIPHER|..][..k]
    ensures var m := i + |CIPHER| + k + 1;
            var read := DecryptText(c, Sealed(c, nonces, drawn, d));
            var left := DecryptText(c, Sealed(c, nonces, drawn, DropBlock(d, m)));
            read.Ok? ==> left.Ok? && |read.value| < m + |left.value|
  {
    hide Find, CutAt, Lawful, DecryptText, Sealed, Strip, Token, Decodable;
    var block, after := Block(d), AfterBlock(c, nonces, drawn, d);
    var m := i + |CIPHER| + k + 1;
    SplitBlock(block, i);
    DropKeeps(c, nonces, drawn, d, m);
    SplitTail(block, i, k, after);
    ReadForeign(c, block[..i], block[i + |CIPHER|..][..k], block[m..] + after);
  }

  lemma {:induction false} ShrinksAt(c: Cipher, nonces: nat -> Nonce, drawn: nat, d: Doc, i: nat)
    requires Lawful(c) && AllReal(d) && Find(CIPHER, Block(d)) == Some(i)
    ensures var read := DecryptText(c, Sealed(c, nonces, drawn, d));
            read.Ok? ==> |read.value| < |Strip(d)|
    decreases Markers(d), |Block(d)|, 0
  {
    hide Find, CutAt, Lawful, Real, DecryptText, Sealed, Strip, AfterBlock, DropBlock, Markers;
    var block := Block(d);
    SplitBlock(block, i);
    var tail := block[i + |CIPHER|..];
    if ']' in tail {
      var k := FirstBracket(tail);
      ForeignStep(c, nonces, drawn, d, i, k);
      DropKeeps(c, nonces, drawn, d, i + |CIPHER| + k + 1);
      Shrinks(c, nonces, drawn, DropBlock(d, i + |CIPHER| + k + 1));
    } else if d.Marker? {
      MergedFails(c, nonces, drawn, d, block[..i], tail);
    } else {
      CutUnclosed(CIPHER, ']', block[..i], tail);
      UnclosedFails(c, nonces, drawn, d);
    }
  }

  lemma SplitTail(block: string, i: nat, k: nat, after: string)
    requires i + |CIPHER| + k < |block| && block == block[..i] + CIPHER + block[i + |CIPHER|..]
    requires block[i + |CIPHER| + k] == ']'
    ensures block + after == block[..i] + CIPHER + block[i + |CIPHER|..][..k] + "]"
                             + (block[i + |CIPHER| + k + 1..] + after)
  {
    var tail := block[i + |CIPHER|..];
    assert tail == tail[..k] + [tail[k]] + tail[k + 1..];
    assert tail[k + 1..] == block[i + |CIPHER| + k + 1..];
  }

  lemma MergedFails(c: Cipher, nonces: nat -> Nonce, drawn: nat, d: Doc, left: string, mid: string)
    requires Lawful(c) && AllReal(d) && d.Marker? && d.before == left + CIPHER + mid
    requires Find(CIPHER, left + CIPHER) == Some(|left|) && ']' !in mid
    ensures DecryptText(c, Sealed(c, nonces, drawn, d)).Err?
  {
    hide Find, CutAt, Lawful, DecryptText, Token, Real;
    var payload := c.encode(nonces(drawn), d.secret);
    var rest := Sealed(c, nonces, drawn + 1, d.rest);
    PayloadOf(c, nonces(drawn), d.secret);
    ReadMerged(c, left, mid, payload, rest);
  }

  lemma PayloadOf(c: Cipher, nonce: Nonce, secret: string)
    requires Lawful(c)
    ensures IsPayload(c.encode(nonce, secret))
  {
  }

  lemma UnclosedFails(c: Cipher, nonces: nat -> Nonce, drawn: nat, d: Doc)
    requires d.Tail? && CutAt(CIPHER, ']', d.text) == Unclosed
    ensures DecryptText(c, Sealed(c, nonces, drawn, d)).Err?
  {
  }

  lemma FirstBracket(text: string) returns (k: nat)
    requires ']' in text
    ensures k < |text| && text[k] == ']' && ']' !in text[..k]
  {
    k := 0;
    while text[k] != ']'
      invariant k < |text| && ']' !in text[..k] && ']' in text[k..]
      decreases |text| - k
    {
      k := k + 1;
    }
  }

  // The theorems.

  /**
   The round trip, exactly: decrypting the encrypted text gives the text with its markers stripped if and
   only if no stretch of plain text, joined across the parts that are copied, holds a token start.
   */
  lemma SecretRoundTrip(c: Cipher, nonces: nat -> Nonce, text: string, d: Doc)
    requires Lawful(c) && Scan(text) == Some(d)
    ensures EncryptText(Some(c), nonces, 0, text) == Ok(Sealed(c, nonces, 0, d))
    ensures DecryptText(c, Sealed(c, nonces, 0, d)) == Ok(Strip(d)) <==> Clean(Glue(d), CIPHER)
  {
    hide Find, CutAt, Lawful, Real, DecryptText, EncryptText, Sealed, Strip;
    EncryptionSeals(c, nonces, 0, text);
    GlueKeeps(c, nonces, 0, d);
    if Clean(Glue(d), CIPHER) {
      CleanRoundTrip(c, nonces, 0, Glue(d));
    } else {
      Shrinks(c, nonces, 0, Glue(d));
    }
  }

  lemma Occurrence(pattern: string, text: string, i: nat)
    requires OccursAt(pattern, text, i)
    ensures Contains(text, pattern)
  {
  }

  /** A marker in a sealed text lies in one of its stretches of plain text. */
  lemma MarkerWithin(before: string, payload: string, rest: string)
    requires IsPayload(payload)
    ensures Contains(before + Token(payload) + rest, MARKER) <==>
            Contains(before, MARKER) || Contains(rest, MARKER)
  {
    hide Find;
    var token := Token(payload);
    var text, m := before + token + rest, |before| + |token|;
    if Contains(before, MARKER) {
      var i := Find(MARKER, before).value;
      assert text[i..i + 4] == before[i..i + 4];
      Occurrence(MARKER, text, i);
    }
    if Contains(rest, MARKER) {
      var i := Find(MARKER, rest).value;
      assert text[m..] == rest;
      assert text[m + i..m + i + 4] == text[m..][i..i + 4];
      Occurrence(MARKER, text, m + i);
    }
    if Contains(text, MARKER) {
      var i := Find(MARKER, text).value;
      if |before| < i + 4 && i < m {
        MarkerPlace(before, payload, rest, i);
        assert false;
      } else if i + 4 <= |before| {
        assert text[i..i + 4] == before[i..i + 4];
        Occurrence(MARKER, before, i);
      } else {
        assert text[m..] == rest;
        assert text[i..i + 4] == text[m..][i - m..i - m + 4];
        Occurrence(MARKER, rest, i - m);
      }
    }
  }

  lemma MarkerPlace(before: string, payload: string, rest: string, i: nat)
    requires IsPayload(payload) && |before| < i + 4 && i < |before| + |Token(payload)|
    ensures !OccursAt(MARKER, before + Token(payload) + rest, i)
  {
    var token := Token(payload);
    var text, m := before + token + rest, |before| + |token|;
    if i + 4 <= m {
      assert token[i + 3 - |before|] != '(';
      assert text[i..i + 4][3] == text[i + 3] == token[i + 3 - |before|];
      assert text[i..i + 4] != MARKER;
    } else if i + 4 <= |text| {
      assert text[i..i + 4][m - 1 - i] == text[m - 1] == token[|token| - 1];
      assert text[i..i + 4] != MARKER;
    }
  }

  lemma {:induction false} SealedMarkers(c: Cipher, nonces: nat -> Nonce, drawn: nat, d: Doc)
    requires Lawful(c) && AllReal(d)
    ensures Contains(Sealed(c, nonces, drawn, d), MARKER) <==> !Clean(d, MARKER)
    decreases d
  {
    hide Find, Lawful, Real, Token;
    if d.Marker? {
      SealedMarkers(c, nonces, drawn + 1, d.rest);
      PayloadOf(c, nonces(drawn), d.secret);
      MarkerWithin(d.before, c.encode(nonces(drawn), d.secret), Sealed(c, nonces, drawn + 1, d.rest));
    }
  }

  /**
   Stability, exactly: a second encryption finds nothing to do if and only if no stretch of plain text,
   joined across the parts that are copied, holds a marker start.
   */
  lemma SecondEncryption(c: Cipher, nonces: nat -> Nonce, text: string, d: Doc)
    requires Lawful(c) && Scan(text) == Some(d)
    ensures !Contains(Sealed(c, nonces, 0, d), MARKER) <==> Clean(Glue(d), MARKER)
    ensures Clean(Glue(d), MARKER) ==>
              forall k, again ::
                EncryptText(Some(c), again, k, Sealed(c, nonces, 0, d)) == Ok(Sealed(c, nonces, 0, d))
  {
    hide Find, Lawful, Real, Sealed;
    GlueKeeps(c, nonces, 0, d);
    SealedMarkers(c, nonces, 0, Glue(d));
  }

  predicate NoEmptySecret(d: Doc) {
    d.Marker? ==> d.secret != "" && NoEmptySecret(d.rest)
  }

  lemma ContainsPart(pattern: string, left: string, mid: string, right: string)
    ensures Contains(mid, pattern) ==> Contains(left + mid + right, pattern)
  {
    hide Find;
    if Contains(mid, pattern) {
      var i := Find(pattern, mid).value;
      var text := left + mid + right;
      assert text[|left| + i..|left| + i + |pattern|] == mid[i..i + |pattern|];
      Occurrence(pattern, text, |left| + i);
    }
  }

  lemma EncryptedContains(secret: string)
    ensures IsEncrypted(secret) ==> Contains(secret, CIPHER)
  {
    if IsEncrypted(secret) {
      Occurrence(CIPHER, secret, 0);
    }
  }

  /** Text without tokens and without empty markers meets both conditions. */
  lemma {:induction false} OrdinaryIsClean(d: Doc)
    requires Proper(d) && NoEmptySecret(d) && !Contains(Source(d), CIPHER)
    ensures Glue(d) == d && Clean(d, CIPHER) && Clean(d, MARKER)
  {
    hide Find, ParseSecret, IsEncrypted;
    if d.Marker? {
      var rest := Source(d.rest);
      var upto := d.before + MARKER + d.secret + ")";
      assert upto + rest + "" == "" + d.before + (MARKER + d.secret + ")" + rest)
             == d.before + MARKER + d.secret + (")" + rest) == Source(d);
      ContainsPart(CIPHER, upto, rest, "");
      ContainsPart(CIPHER, "", d.before, MARKER + d.secret + ")" + rest);
      ContainsPart(CIPHER, d.before + MARKER, d.secret, ")" + rest);
      EncryptedContains(d.secret);
      OrdinaryIsClean(d.rest);
      NoMarkerBefore(d.before);
    }
  }

  lemma OccursInPrefix(pattern: string, before: string, after: string, i: nat)
    ensures OccursAt(pattern, before, i) ==> OccursAt(pattern, before + after, i)
  {
    if i + |pattern| <= |before| {
      assert (before + after)[i..i + |pattern|] == before[i..i + |pattern|];
    }
  }

  lemma NoMarkerBefore(before: string)
    requires Find(MARKER, before + MARKER) == Some(|before|)
    ensures !Contains(before, MARKER)
  {
    hide Find, OccursAt;
    var found := Find(MARKER, before);
    if found.Some? {
      OccursInPrefix(MARKER, before, MARKER, found.value);
      InBounds(MARKER, before, found.value);
    }
  }

  lemma InBounds(pattern: string, text: string, i: nat)
    requires OccursAt(pattern, text, i) && pattern != ""
    ensures i < |text|
  {
  }

  /**
   What the markers promise: text without tokens, with every marker closed and none empty, encrypts; its
   encryption decrypts to the text with every `ENC(secret)` replaced by its secret and all else as it was;
   and encrypting again changes nothing.
   */
  lemma {:induction false} OrdinaryText(c: Cipher, nonces: nat -> Nonce, text: string, d: Doc)
    requires Lawful(c) && !Contains(text, CIPHER) && Scan(text) == Some(d) && NoEmptySecret(d)
    ensures EncryptText(Some(c), nonces, 0, text) == Ok(Sealed(c, nonces, 0, d))
    ensures DecryptText(c, Sealed(c, nonces, 0, d)) == Ok(Strip(d))
    ensures !Contains(Sealed(c, nonces, 0, d), MARKER)
  {
    ScanMeaning(text);
    OrdinaryIsClean(d);
    SecretRoundTrip(c, nonces, text, d);
    SecondEncryption(c, nonces, text, d);
  }

  /** A text with an empty marker after its first letter. */
  lemma SplicedScan(tail: string)
    requires !Contains(tail, MARKER)
    ensures Scan("E" + MARKER + ")" + tail) == Some(Marker("E", "", Tail(tail)))
  {
    hide Find, Scan;
    var d := Marker("E", "", Tail(tail));
    NoneIn(MARKER, "E");
    FindAfter(MARKER, "E", MARKER);
    SourceScans(d);
    assert "E" + MARKER + "" + ")" + tail == "E" + MARKER + ")" + tail;
  }

  /** An empty marker can splice a new one: `EENC()NC(x)` becomes `ENC(x)`, which a second pass encrypts. */
  lemma EmptyMarkerSplices(c: Cipher, nonces: nat -> Nonce)
    ensures !Contains("EENC()NC(x)", CIPHER)
    ensures var d := Marker("E", "", Tail("NC(x)"));
            Scan("EENC()NC(x)") == Some(d)
            && Sealed(c, nonces, 0, d) == "ENC(x)" && Contains("ENC(x)", MARKER)
  {
    hide Find, Scan;
    NoneIn(CIPHER, "EENC()NC(x)");
    NoneIn(MARKER, "NC(x)");
    SplicedScan("NC(x)");
    assert "E" + MARKER + ")" + "NC(x)" == "EENC()NC(x)";
    Occurrence(MARKER, "ENC(x)", 0);
    assert "E" + "" + "NC(x)" == "ENC(x)";
  }

  /** Or a token nobody wrote: `EENC()NC[x]` encrypts, but does not decrypt to its stripped text. */
  lemma EmptyMarkerForgesToken(c: Cipher, nonces: nat -> Nonce)
    requires Lawful(c)
    ensures !Contains("EENC()NC[x]", CIPHER)
    ensures var d := Marker("E", "", Tail("NC[x]"));
            Scan("EENC()NC[x]") == Some(d)
            && DecryptText(c, Sealed(c, nonces, 0, d)) != Ok(Strip(d))
  {
    hide Find, Scan, Lawful, DecryptText, EncryptText, Sealed, Strip;
    NoneIn(CIPHER, "EENC()NC[x]");
    NoneIn(MARKER, "NC[x]");
    SplicedScan("NC[x]");
    assert "E" + MARKER + ")" + "NC[x]" == "EENC()NC[x]";
    Occurrence(CIPHER, "ENC[x]", 0);
    assert "E" + "" + "NC[x]" == "ENC[x]";
    SecretRoundTrip(c, nonces, "EENC()NC[x]", Marker("E", "", Tail("NC[x]")));
  }

  predicate MatchesAt(pattern: string, text: string, i: nat)
    requires |pattern| == 4 && i + 4 <= |text|
  {
    text[i] == pattern[0] && text[i + 1] == pattern[1] && text[i + 2] == pattern[2] && text[i + 3] == pattern[3]
  }

  lemma NoneIn(pattern: string, text: string)
    requires |pattern| == 4 && forall i: nat :: i + 4 <= |text| ==> !MatchesAt(pattern, text, i)
    ensures !Contains(text, pattern)
  {
    hide Find;
    forall i: nat | i + 4 <= |text| ensures !OccursAt(pattern, text, i) {
      assert !MatchesAt(pattern, text, i);
      var s := text[i..i + 4];
      assert s[0] == text[i] && s[1] == text[i + 1] && s[2] == text[i + 2] && s[3] == text[i + 3];
    }
  }

  // The laws asked of a cipher can be met.

  /** A text in letters: for every character as many `a` as its code, and a `b`. */
  function Spelled(text: string): (code: string)
    ensures |code| > |text| && Decodable(code) && IsPayload(code)
    ensures forall i :: 0 <= i < |code| ==> code[i] == 'a' || code[i] == 'b'
  {
    if text == "" then "b" else Unary(text[0] as int) + Spelled(text[1..])
  }

  function Unary(n: nat): (code: string)
    ensures |code| == n + 1 && code[n] == 'b' && forall i :: 0 <= i < n ==> code[i] == 'a'
  {
    seq(n, i => 'a') + "b"
  }

  lemma UnaryApart(m: nat, n: nat, x: string, y: string)
    requires m < n
    ensures Unary(m) + x != Unary(n) + y
  {
    assert (Unary(m) + x)[m] == 'b' && (Unary(n) + y)[m] == 'a';
  }

  lemma {:induction false} SpelledApart(x: string, y: string)
    requires Spelled(x) == Spelled(y)
    ensures x == y
    decreases |x|
  {
    if x != "" && y != "" {
      var m, n := x[0] as int, y[0] as int;
      if m < n {
        UnaryApart(m, n, Spelled(x[1..]), Spelled(y[1..]));
      } else if n < m {
        UnaryApart(n, m, Spelled(y[1..]), Spelled(x[1..]));
      } else {
        assert Spelled(x)[m + 1..] == Spelled(x[1..]) && Spelled(y)[n + 1..] == Spelled(y[1..]);
        SpelledApart(x[1..], y[1..]);
      }
    }
  }

  lemma LawfulExists() returns (c: Cipher)
    ensures Lawful(c)
  {
    c := Cipher((n: Nonce, p: string) => Spelled(p),
                (x: string) =>
                  if exists p :: Spelled(p) == x then (var p :| Spelled(p) == x; Ok(p)) else Err(Undecodable));
    forall n, p ensures c.decode(c.encode(n, p)) == Ok(p) {
      assert Spelled(p) == c.encode(n, p);
      forall q | Spelled(q) == Spelled(p) ensures q == p {
        SpelledApart(q, p);
      }
    }
  }
}
