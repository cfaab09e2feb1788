/**
 * The Vigenère-style cipher of `src/encryption.c`.
 *
 * Only ASCII letters are substituted; every other byte is copied and does not
 * move the key cursor. The j-th letter of the input is shifted by the j-th key
 * letter (cyclically), read case-insensitively, and keeps its own case.
 */
module Encryption {
  import opened Common

  // ---------------------------------------------------------------------------
  // Letters and keys
  // ---------------------------------------------------------------------------

  predicate IsUpper(b: int) { 'A' as int <= b <= 'Z' as int }
  predicate IsLower(b: int) { 'a' as int <= b <= 'z' as int }

  /** `isalpha` restricted to ASCII. */
  predicate IsLetter(b: int) { IsUpper(b) || IsLower(b) }

  /** A key the cipher accepts: non-empty and made of letters only. */
  predicate ValidKey(key: string)
  {
    |key| > 0 && forall i :: 0 <= i < |key| ==> IsLetter(key[i] as int)
  }

  /** `tolower` restricted to ASCII. */
  function LowerChar(c: char): char
  {
    if 'A' <= c <= 'Z' then (c as int + 32) as char else c
  }

  /** The shift of key position `cursor`: lowercase(key[cursor mod |key|]) - 'a'. */
  function KeyShift(key: string, cursor: nat): (k: int)
    requires ValidKey(key)
    ensures 0 <= k < 26
  {
    LowerChar(key[cursor % |key|]) as int - 'a' as int
  }

  /**
   * `validar_clave`: an early-exit scan of the key. It answers 1 (here `true`)
   * exactly for a non-empty key whose every character is a letter.
   */
  method ValidateKey(key: string) returns (valid: bool)
    ensures valid <==> (|key| > 0 && forall i :: 0 <= i < |key| ==> IsLetter(key[i] as int))
  {
    if |key| == 0 {
      return false;
    }
    var i := 0;
    while i < |key|
      invariant 0 <= i <= |key|
      invariant forall j :: 0 <= j < i ==> IsLetter(key[j] as int)
    {
      if !IsLetter(key[i] as int) {
        return false;
      }
      i := i + 1;
    }
    return true;
  }

  // ---------------------------------------------------------------------------
  // One letter
  // ---------------------------------------------------------------------------

  datatype Direction = Encrypting | Decrypting

  /** The remainder of C's `%`, which truncates toward zero. */
  function CRem(a: int, m: int): int
    requires m > 0
  {
    if a >= 0 then a % m else -((-a) % m)
  }

  /** 'A' for an upper-case letter, 'a' otherwise. */
  function Base(b: Byte): int
  {
    if IsUpper(b) then 'A' as int else 'a' as int
  }

  /** The value the source reduces `% 26`: `b - base + shift` when encrypting,
      `b - base - shift + 26` when decrypting. It lies in [0, 51], so C's `%`
      agrees with the mathematical modulo on it. */
  function Offset(b: Byte, shift: int, dir: Direction): (v: int)
    requires IsLetter(b) && 0 <= shift < 26
    ensures 0 <= v <= 51
    ensures CRem(v, 26) == v % 26
  {
    if dir == Encrypting then b - Base(b) + shift else b - Base(b) - shift + 26
  }

  /** One substituted letter. It is again a letter, of the same case. */
  function ShiftLetter(b: Byte, shift: int, dir: Direction): (r: Byte)
    requires IsLetter(b) && 0 <= shift < 26
    ensures IsUpper(r) == IsUpper(b) && IsLower(r) == IsLower(b)
  {
    CRem(Offset(b, shift, dir), 26) + Base(b)
  }

  /** Decryption undoes encryption of one letter, and the other way round. */
  lemma ShiftInverse(b: Byte, shift: int)
    requires IsLetter(b) && 0 <= shift < 26
    ensures ShiftLetter(ShiftLetter(b, shift, Encrypting), shift, Decrypting) == b
    ensures ShiftLetter(ShiftLetter(b, shift, Decrypting), shift, Encrypting) == b
  {
    DecryptUndoesEncrypt(b, shift);
    EncryptUndoesDecrypt(b, shift);
  }

  lemma DecryptUndoesEncrypt(b: Byte, shift: int)
    requires IsLetter(b) && 0 <= shift < 26
    ensures ShiftLetter(ShiftLetter(b, shift, Encrypting), shift, Decrypting) == b
  {
    var v := b - Base(b);
    assert 0 <= v < 26;
    var e := ShiftLetter(b, shift, Encrypting);
    assert Base(e) == Base(b);
    if v + shift < 26 {
      assert e - Base(b) == v + shift;
    } else {
      assert e - Base(b) == v + shift - 26;
    }
  }

  lemma EncryptUndoesDecrypt(b: Byte, shift: int)
    requires IsLetter(b) && 0 <= shift < 26
    ensures ShiftLetter(ShiftLetter(b, shift, Decrypting), shift, Encrypting) == b
  {
    var v := b - Base(b);
    assert 0 <= v < 26;
    var d := ShiftLetter(b, shift, Decrypting);
    assert Base(d) == Base(b);
    if v - shift + 26 < 26 {
      assert d - Base(b) == v - shift + 26;
    } else {
      assert d - Base(b) == v - shift;
    }
  }

  // ---------------------------------------------------------------------------
  // Whole buffers
  // ---------------------------------------------------------------------------

  /** The cipher over `s` with the key cursor starting at `cursor`: letters are
      shifted and advance the cursor, other bytes are copied and do not. */
  function Crypt(s: seq<Byte>, key: string, cursor: nat, dir: Direction): (r: seq<Byte>)
    requires ValidKey(key)
    ensures |r| == |s|
    decreases |s|
  {
    if |s| == 0 then []
    else if IsLetter(s[0]) then [ShiftLetter(s[0], KeyShift(key, cursor), dir)] + Crypt(s[1..], key, cursor + 1, dir)
    else [s[0]] + Crypt(s[1..], key, cursor, dir)
  }

  function Encrypt(s: seq<Byte>, key: string): seq<Byte>
    requires ValidKey(key)
  {
    Crypt(s, key, 0, Encrypting)
  }

  function Decrypt(s: seq<Byte>, key: string): seq<Byte>
    requires ValidKey(key)
  {
    Crypt(s, key, 0, Decrypting)
  }

  /** The number of letters in `s`: how far the key cursor has moved over it. */
  function LetterCount(s: seq<Byte>): nat
  {
    if |s| == 0 then 0 else (if IsLetter(s[0]) then 1 else 0) + LetterCount(s[1..])
  }

  /** One step of the cipher loop at position `i`. */
  lemma CryptStep(data: seq<Byte>, i: nat, key: string, cursor: nat, dir: Direction)
    requires ValidKey(key) && i < |data|
    ensures Crypt(data[i..], key, cursor, dir)
         == (if IsLetter(data[i])
             then [ShiftLetter(data[i], KeyShift(key, cursor), dir)] + Crypt(data[i + 1..], key, cursor + 1, dir)
             else [data[i]] + Crypt(data[i + 1..], key, cursor, dir))
  {
    assert data[i..][1..] == data[i + 1..];
  }

  /** The cipher loop shared by both directions: writes the output array in
      place while it advances the key cursor over letters only. */
  method CryptLoop(data: seq<Byte>, key: string, dir: Direction) returns (out: array<Byte>)
    requires ValidKey(key)
    ensures fresh(out)
    ensures out[..] == Crypt(data, key, 0, dir)
  {
    out := new Byte[|data|];
    var cursor := 0;
    var i := 0;
    while i < |data|
      invariant 0 <= i <= |data|
      invariant out[..i] + Crypt(data[i..], key, cursor, dir) == Crypt(data, key, 0, dir)
    {
      var b := data[i];
      var next := i + 1;
      CryptStep(data, i, key, cursor, dir);
      ghost var before := out[..i];
      ghost var todo := Crypt(data[i..], key, cursor, dir);
      if IsLetter(b) {
        var base := if IsUpper(b) then 'A' as int else 'a' as int;
        var keyChar := LowerChar(key[cursor % |key|]);
        var shift := keyChar as int - 'a' as int;
        assert shift == KeyShift(key, cursor);
        var v := if dir == Encrypting then b - base + shift else b - base - shift + 26;
        assert v == Offset(b, shift, dir);
        out[i] := CRem(v, 26) + base;
        assert out[i] == ShiftLetter(b, KeyShift(key, cursor), dir);
        cursor := cursor + 1;
      } else {
        out[i] := b;
      }
      assert out[..next] == before + [out[i]];
      ExtendPrefix(before, [out[i]], Crypt(data[next..], key, cursor, dir), todo, Crypt(data, key, 0, dir));
      i := next;
    }
    EmptyTail(data);
    AppendNothing(out[..i]);
    assert out[..] == out[..|data|];
  }

  /**
   * `encriptar_vigenere`: fails (-1, no output) on an invalid key; otherwise
   * returns the encryption, which has the length of the input.
   */
  method EncryptVigenere(data: seq<Byte>, key: string) returns (r: Option<seq<Byte>>)
    ensures r.None? <==> !ValidKey(key)
    ensures r.Some? ==> |r.value| == |data| && r.value == Encrypt(data, key)
  {
    var valid := ValidateKey(key);
    if !valid {
      return None;
    }
    var out := CryptLoop(data, key, Encrypting);
    r := Some(out[..]);
  }

  /**
   * `desencriptar_vigenere`: fails (-1, no output) on an invalid key; otherwise
   * returns the decryption, which has the length of the input.
   */
  method DecryptVigenere(data: seq<Byte>, key: string) returns (r: Option<seq<Byte>>)
    ensures r.None? <==> !ValidKey(key)
    ensures r.Some? ==> |r.value| == |data| && r.value == Decrypt(data, key)
  {
    var valid := ValidateKey(key);
    if !valid {
      return None;
    }
    var out := CryptLoop(data, key, Decrypting);
    r := Some(out[..]);
  }

  // ---------------------------------------------------------------------------
  // Properties
  // ---------------------------------------------------------------------------

  /** Byte `i` of the output: a non-letter is copied; a letter is shifted by the
      key position reached after the letters before it, and nothing else. */
  lemma {:induction false} CryptAt(s: seq<Byte>, key: string, cursor: nat, dir: Direction, i: nat)
    requires ValidKey(key) && i < |s|
    ensures Crypt(s, key, cursor, dir)[i]
         == if IsLetter(s[i])
            then ShiftLetter(s[i], KeyShift(key, cursor + LetterCount(s[..i])), dir)
            else s[i]
    decreases i
  {
    if i > 0 {
      var next := if IsLetter(s[0]) then cursor + 1 else cursor;
      var rest := s[1..];
      var j := i - 1;
      CryptAt(rest, key, next, dir, j);
      assert Crypt(s, key, cursor, dir)[i] == Crypt(rest, key, next, dir)[j];
      assert rest[j] == s[i];
      assert s[..i][1..] == rest[..j];
      assert next + LetterCount(rest[..j]) == cursor + LetterCount(s[..i]);
    }
  }

  /** The j-th letter of the input is shifted by key[j mod |key|]: the cipher
      advances the key cursor over letters only. */
  lemma EncryptLetter(s: seq<Byte>, key: string, i: nat)
    requires ValidKey(key) && i < |s| && IsLetter(s[i])
    ensures Encrypt(s, key)[i] == ShiftLetter(s[i], KeyShift(key, LetterCount(s[..i])), Encrypting)
    ensures IsUpper(Encrypt(s, key)[i]) == IsUpper(s[i])
  {
    CryptAt(s, key, 0, Encrypting, i);
  }

  /** Bytes that are not letters come out unchanged, in both directions. */
  lemma NonLetterPassthrough(s: seq<Byte>, key: string, dir: Direction, i: nat)
    requires ValidKey(key) && i < |s| && !IsLetter(s[i])
    ensures Crypt(s, key, 0, dir)[i] == s[i]
  {
    CryptAt(s, key, 0, dir, i);
  }

  /** An input without letters is returned unchanged. */
  lemma {:induction false} NoLettersUnchanged(s: seq<Byte>, key: string, cursor: nat, dir: Direction)
    requires ValidKey(key)
    requires forall k :: 0 <= k < |s| ==> !IsLetter(s[k])
    ensures Crypt(s, key, cursor, dir) == s
    decreases |s|
  {
    if |s| > 0 {
      NoLettersUnchanged(s[1..], key, cursor, dir);
    }
  }

  /** Decryption undoes encryption from any key position, and vice versa. */
  lemma {:induction false} CryptRoundTrip(s: seq<Byte>, key: string, cursor: nat)
    requires ValidKey(key)
    ensures Crypt(Crypt(s, key, cursor, Encrypting), key, cursor, Decrypting) == s
    ensures Crypt(Crypt(s, key, cursor, Decrypting), key, cursor, Encrypting) == s
    decreases |s|
  {
    if |s| > 0 {
      var e := Crypt(s, key, cursor, Encrypting);
      var d := Crypt(s, key, cursor, Decrypting);
      if IsLetter(s[0]) {
        ShiftInverse(s[0], KeyShift(key, cursor));
        CryptRoundTrip(s[1..], key, cursor + 1);
        assert e[1..] == Crypt(s[1..], key, cursor + 1, Encrypting);
        assert d[1..] == Crypt(s[1..], key, cursor + 1, Decrypting);
      } else {
        CryptRoundTrip(s[1..], key, cursor);
        assert e[1..] == Crypt(s[1..], key, cursor, Encrypting);
        assert d[1..] == Crypt(s[1..], key, cursor, Decrypting);
      }
    }
  }

  /** decrypt(encrypt(x, k), k) == x and encrypt(decrypt(x, k), k) == x for
      every byte sequence x and every valid key k. */
  lemma RoundTrip(s: seq<Byte>, key: string)
    requires ValidKey(key)
    ensures Decrypt(Encrypt(s, key), key) == s
    ensures Encrypt(Decrypt(s, key), key) == s
  {
    CryptRoundTrip(s, key, 0);
  }

  /** Keys that differ only in letter case give the same output. */
  lemma {:induction false} KeyCaseInsensitive(s: seq<Byte>, k1: string, k2: string, cursor: nat, dir: Direction)
    requires ValidKey(k1) && ValidKey(k2) && |k1| == |k2|
    requires forall i :: 0 <= i < |k1| ==> LowerChar(k1[i]) == LowerChar(k2[i])
    ensures Crypt(s, k1, cursor, dir) == Crypt(s, k2, cursor, dir)
    decreases |s|
  {
    if |s| > 0 {
      assert KeyShift(k1, cursor) == KeyShift(k2, cursor);
      KeyCaseInsensitive(s[1..], k1, k2, cursor + 1, dir);
      KeyCaseInsensitive(s[1..], k1, k2, cursor, dir);
    }
  }
}
