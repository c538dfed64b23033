/**
 Envelopes of src/db/encryption.rs. The cipher is ideal: what it sealed is opened exactly with the same
 associated data. Its texts are base64url, so they hold no colon.
 */
module Cipher {
  import opened Wrappers
  import opened Text

  const ENVELOPE_PREFIX := "sshoosh:v1:xchacha20poly1305:"

  type Nonce = nat

  /** The cipher with its encoding: sealing gives text, and opening takes it. */
  datatype Service = Service(
    encodeNonce: Nonce -> string,
    seal: (Nonce, string, string) -> string,
    unseal: (string, string, string) -> Option<string>)

  ghost predicate Ideal(s: Service) {
    && (forall n: Nonce :: ':' !in s.encodeNonce(n))
    && (forall n: Nonce, sealedFor: string, message: string, aad: string ::
          s.unseal(s.encodeNonce(n), s.seal(n, sealedFor, message), aad)
          == if aad == sealedFor then Some(message) else None)
  }

  function AssociatedData(table: string, rowId: string, column: string): string {
    table + (":" + (rowId + (":" + column)))
  }

  function Encrypt(s: Service, n: Nonce, table: string, rowId: string, column: string, plaintext: string): string {
    if ENVELOPE_PREFIX <= plaintext then plaintext
    else
      ENVELOPE_PREFIX + (s.encodeNonce(n) + (":" + s.seal(n, AssociatedData(table, rowId, column), plaintext)))
  }

  function Decrypt(s: Service, table: string, rowId: string, column: string, envelope: string): Option<string> {
    if !(ENVELOPE_PREFIX <= envelope) then None
    else
      match SplitOnce(envelope[|ENVELOPE_PREFIX|..], ":")
      case None => None
      case Some((nonce, ciphertext)) => s.unseal(nonce, ciphertext, AssociatedData(table, rowId, column))
  }

  // ----- Associated data

  lemma NoColonAfter(a: string, c: string)
    requires ':' !in c
    ensures var s := a + (":" + c); s[|a|] == ':' && forall i | |a| < i < |s| :: s[i] != ':'
  {
    var s := a + (":" + c);
    forall i | |a| < i < |s|
      ensures s[i] != ':'
    {
      assert c[i - |a| - 1] in c;
    }
  }

  lemma LastColonAgrees(a: string, c: string, b: string, d: string)
    requires a + (":" + c) == b + (":" + d) && ':' !in c && ':' !in d
    ensures a == b && c == d
  {
    var s := a + (":" + c);
    NoColonAfter(a, c);
    NoColonAfter(b, d);
    assert |a| == |b|;
    assert s[..|a|] == a && s[..|a|] == b;
    assert s[|a| + 1..] == c && s[|a| + 1..] == d;
  }

  /** Different tables, rows or columns have different associated data, even where a row id holds
      colons. */
  lemma AssociatedDataIsInjective(table: string, rowId: string, column: string,
                                  table': string, rowId': string, column': string)
    requires ':' !in table && ':' !in table' && ':' !in column && ':' !in column'
    ensures AssociatedData(table, rowId, column) == AssociatedData(table', rowId', column')
            <==> table == table' && rowId == rowId' && column == column'
  {
    hide SplitOnce;
    SplitOnceAt(table, ":", rowId + (":" + column));
    SplitOnceAt(table', ":", rowId' + (":" + column'));
    if AssociatedData(table, rowId, column) == AssociatedData(table', rowId', column') {
      LastColonAgrees(rowId, column, rowId', column');
    }
  }

  /** An envelope is opened for its own table, row and column, and for nothing else. */
  lemma EnvelopeOpensExactly(s: Service, n: Nonce, table: string, rowId: string, column: string, plaintext: string,
                             table': string, rowId': string, column': string)
    requires Ideal(s) && !(ENVELOPE_PREFIX <= plaintext)
    requires ':' !in table && ':' !in table' && ':' !in column && ':' !in column'
    ensures Decrypt(s, table', rowId', column', Encrypt(s, n, table, rowId, column, plaintext))
            == if table == table' && rowId == rowId' && column == column' then Some(plaintext) else None
  {
    hide SplitOnce, AssociatedData;
    var nonce := s.encodeNonce(n);
    var ciphertext := s.seal(n, AssociatedData(table, rowId, column), plaintext);
    var envelope := Encrypt(s, n, table, rowId, column, plaintext);
    var body := nonce + (":" + ciphertext);
    Unprefixed(ENVELOPE_PREFIX, body);
    SplitOnceAt(nonce, ":", ciphertext);
    AssociatedDataIsInjective(table, rowId, column, table', rowId', column');
  }

  lemma Unprefixed(prefix: string, s: string)
    ensures prefix <= prefix + s && (prefix + s)[|prefix|..] == s
  {
  }

  /** What is stored can be stored again: it is not sealed twice. */
  lemma EncryptingTwice(s: Service, n: Nonce, m: Nonce, table: string, rowId: string, column: string, plaintext: string)
    ensures ENVELOPE_PREFIX <= Encrypt(s, n, table, rowId, column, plaintext)
    ensures Encrypt(s, m, table, rowId, column, Encrypt(s, n, table, rowId, column, plaintext))
            == Encrypt(s, n, table, rowId, column, plaintext)
  {
    Unprefixed(ENVELOPE_PREFIX, s.encodeNonce(n) + (":" + s.seal(n, AssociatedData(table, rowId, column), plaintext)));
  }

  // ----- Ideal ciphers exist

  function Unary(n: nat): string { if n == 0 then ":" else "1" + Unary(n - 1) }

  function ToySeal(n: Nonce, aad: string, message: string): string { Unary(|aad|) + (aad + message) }

  function ToyUnseal(nonce: string, sealed: string, aad: string): Option<string> {
    var front := Unary(|aad|) + aad;
    if front <= sealed then Some(sealed[|front|..]) else None
  }

  function NoNonce(n: Nonce): string { "" }

  lemma UnaryFirst(a: nat, rest: string)
    ensures (Unary(a) + rest)[0] == if a == 0 then ':' else '1'
    ensures (Unary(a) + rest)[1..] == if a == 0 then rest else Unary(a - 1) + rest
  {
  }

  lemma {:induction false} UnaryTells(a: nat, b: nat, rest: string, rest': string)
    requires Unary(a) + rest == Unary(b) + rest'
    ensures a == b && rest == rest'
  {
    UnaryFirst(a, rest);
    UnaryFirst(b, rest');
    if a > 0 && b > 0 {
      UnaryTells(a - 1, b - 1, rest, rest');
    }
  }

  lemma ToyOpens(n: Nonce, sealedFor: string, message: string, aad: string)
    ensures ToyUnseal("", ToySeal(n, sealedFor, message), aad) == if aad == sealedFor then Some(message) else None
  {
    var sealed := ToySeal(n, sealedFor, message);
    var front := Unary(|aad|) + aad;
    if front <= sealed {
      var rest := sealed[|front|..];
      assert sealed == Unary(|aad|) + (aad + rest);
      UnaryTells(|sealedFor|, |aad|, sealedFor + message, aad + rest);
      assert (sealedFor + message)[..|aad|] == sealedFor && (aad + rest)[..|aad|] == aad;
      assert (sealedFor + message)[|aad|..] == message && (aad + rest)[|aad|..] == rest;
    }
    if aad == sealedFor {
      assert sealed == front + message;
    }
  }

  /** So the hypothesis can be met. */
  lemma IdealServiceExists()
    ensures Ideal(Service(NoNonce, ToySeal, ToyUnseal))
  {
    forall n: Nonce, sealedFor: string, message: string, aad: string
      ensures ToyUnseal("", ToySeal(n, sealedFor, message), aad) == if aad == sealedFor then Some(message) else None
    {
      ToyOpens(n, sealedFor, message, aad);
    }
    hide ToySeal, ToyUnseal;
  }
}
