/** Sealing of TOTP secrets and the backup-code alphabet, normaliser and hash. */
module Crypto {
  import opened Types

  /** The alphabet as the code spells it; it does contain `L`. */
  const BACKUP_ALPHABET: string := "ABCDEFGHJKLMNPQRSTUVWXYZ23456789"

  // ---------- secrets at rest ----------

  function SealSecret(key: seq<Byte>, nonce: seq<Byte>, plaintext: string): Ciphertext {
    Sealed(key, nonce, plaintext)
  }

  function OpenSecret(key: seq<Byte>, ciphertext: Ciphertext, nonce: seq<Byte>): Option<string> {
    if |nonce| != NONCE_LENGTH then None
    else if ciphertext.Sealed? && ciphertext.key == key && ciphertext.nonce == nonce then Some(ciphertext.plaintext)
    else None
  }

  /** A secret comes back exactly when key and nonce are the ones it was sealed with and the nonce has 96 bits. */
  lemma SealOpen(key: seq<Byte>, nonce: seq<Byte>, plaintext: string, key': seq<Byte>, nonce': seq<Byte>)
    ensures OpenSecret(key', SealSecret(key, nonce, plaintext), nonce') ==
            if key' == key && nonce' == nonce && |nonce| == 12 then Some(plaintext) else None
  {
  }

  // ---------- backup codes ----------

  predicate IsAlphanumeric(c: char) {
    'A' <= c <= 'Z' || 'a' <= c <= 'z' || '0' <= c <= '9'
  }

  function ToUpper(c: char): (r: char)
    ensures IsAlphanumeric(c) ==> IsAlphanumeric(r)
  {
    if 'a' <= c <= 'z' then ((c as int) - 32) as char else c
  }

  /** Keep the ASCII alphanumerics, upper-cased. */
  function Normalize(code: string): string {
    if code == [] then []
    else (if IsAlphanumeric(code[0]) then [ToUpper(code[0])] else []) + Normalize(code[1..])
  }

  function HashBackupCode(code: string): CodeHash {
    Phc(Normalize(code))
  }

  function VerifyBackupCode(candidate: string, hash: CodeHash): bool {
    hash.Phc? && Normalize(candidate) == hash.digest
  }

  function Letters(pick: seq<nat>): (s: string)
    requires forall i :: 0 <= i < |pick| ==> pick[i] < ALPHABET_SIZE
    ensures |s| == |pick|
    ensures forall i :: 0 <= i < |pick| ==> s[i] == BACKUP_ALPHABET[pick[i]]
  {
    seq(|pick|, i requires 0 <= i < |pick| => BACKUP_ALPHABET[pick[i]])
  }

  /** One code in `XXXX-XXXX` form. */
  function BackupCode(pick: seq<nat>): string
    requires IsPick(pick)
  {
    Letters(pick)[..4] + "-" + Letters(pick)[4..]
  }

  function GenerateBackupCodes(draws: Draws): (codes: seq<string>)
    ensures |codes| == BACKUP_CODE_COUNT
  {
    seq(|draws.picks|, i requires 0 <= i < |draws.picks| => BackupCode(draws.picks[i]))
  }

  // ---------- what the normaliser promises ----------

  lemma {:induction false} NormalizeConcat(a: string, b: string)
    ensures Normalize(a + b) == Normalize(a) + Normalize(b)
  {
    if a == [] {
      assert a + b == b;
    } else {
      var head := if IsAlphanumeric(a[0]) then [ToUpper(a[0])] else [];
      assert (a + b)[0] == a[0] && (a + b)[1..] == a[1..] + b;
      NormalizeConcat(a[1..], b);
      assert head + (Normalize(a[1..]) + Normalize(b)) == (head + Normalize(a[1..])) + Normalize(b);
    }
  }

  lemma {:induction false} NormalizeIdempotent(a: string)
    ensures Normalize(Normalize(a)) == Normalize(a)
  {
    if a == [] {
    } else {
      var head := if IsAlphanumeric(a[0]) then [ToUpper(a[0])] else [];
      assert Normalize(head) == head by {
        if IsAlphanumeric(a[0]) {
          assert head[1..] == [];
        }
      }
      NormalizeConcat(head, Normalize(a[1..]));
      NormalizeIdempotent(a[1..]);
    }
  }

  /** Character by character: capitals and digits stay, small letters become capitals, everything else goes. */
  lemma NormalizeCharacter(c: char)
    ensures 'A' <= c <= 'Z' || '0' <= c <= '9' ==> Normalize([c]) == [c]
    ensures 'a' <= c <= 'z' ==>
              Normalize([c]) == ["ABCDEFGHIJKLMNOPQRSTUVWXYZ"[c as int - 'a' as int]]
    ensures !('A' <= c <= 'Z') && !('a' <= c <= 'z') && !('0' <= c <= '9') ==> Normalize([c]) == ""
  {
    assert [c][1..] == [];
    if 'a' <= c <= 'z' {
      CapitalAt(c as int - 'a' as int);
    }
  }

  lemma CapitalAt(i: nat)
    requires i < 26
    ensures "ABCDEFGHIJKLMNOPQRSTUVWXYZ"[i] as int == 'A' as int + i
  {
  }

  /** `b` is `a` in some other letter case, with any non-alphanumeric separators added or dropped. */
  predicate Reformats(a: string, b: string)
    decreases |a| + |b|
  {
    if a != [] && !IsAlphanumeric(a[0]) then Reformats(a[1..], b)
    else if b != [] && !IsAlphanumeric(b[0]) then Reformats(a, b[1..])
    else if a == [] || b == [] then a == b
    else ToUpper(a[0]) == ToUpper(b[0]) && Reformats(a[1..], b[1..])
  }

  /** Two spellings hash alike exactly when one reformats the other. */
  lemma {:induction false} NormalizeEqualIffReformats(a: string, b: string)
    ensures Normalize(a) == Normalize(b) <==> Reformats(a, b)
    decreases |a| + |b|
  {
    if a != [] && !IsAlphanumeric(a[0]) {
      NormalizeEqualIffReformats(a[1..], b);
    } else if b != [] && !IsAlphanumeric(b[0]) {
      NormalizeEqualIffReformats(a, b[1..]);
    } else if a != [] && b != [] {
      NormalizeEqualIffReformats(a[1..], b[1..]);
      var (na, nb) := (Normalize(a), Normalize(b));
      assert na[0] == ToUpper(a[0]) && na[1..] == Normalize(a[1..]);
      assert nb[0] == ToUpper(b[0]) && nb[1..] == Normalize(b[1..]);
      assert na == [na[0]] + na[1..] && nb == [nb[0]] + nb[1..];
    }
  }

  // ---------- generated codes ----------

  /** The position of a letter in the alphabet, read off the letter. */
  function AlphabetIndex(c: char): int {
    if 'A' <= c <= 'H' then c as int - 'A' as int
    else if 'J' <= c <= 'N' then c as int - 'J' as int + 8
    else if 'P' <= c <= 'Z' then c as int - 'P' as int + 13
    else c as int - '2' as int + 24
  }

  /** The alphabet repeats no letter and every letter is its own normal form. */
  lemma AlphabetLetters(i: nat)
    requires i < ALPHABET_SIZE
    ensures |BACKUP_ALPHABET| == ALPHABET_SIZE
    ensures AlphabetIndex(BACKUP_ALPHABET[i]) == i
    ensures IsAlphanumeric(BACKUP_ALPHABET[i]) && ToUpper(BACKUP_ALPHABET[i]) == BACKUP_ALPHABET[i]
  {
  }

  predicate Unambiguous(c: char) {
    ('A' <= c <= 'Z' && c != 'I' && c != 'O') || '2' <= c <= '9'
  }

  lemma AlphabetUnambiguous(i: nat)
    requires i < |BACKUP_ALPHABET|
    ensures Unambiguous(BACKUP_ALPHABET[i])
  {
  }

  lemma AlphabetAt(c: char)
    requires Unambiguous(c)
    ensures 0 <= AlphabetIndex(c) < |BACKUP_ALPHABET| && BACKUP_ALPHABET[AlphabetIndex(c)] == c
  {
  }

  /** Which letters and digits a code can show: all but `I`, `O`, `0` and `1`. */
  lemma AlphabetExactly(c: char)
    ensures (exists i :: 0 <= i < |BACKUP_ALPHABET| && BACKUP_ALPHABET[i] == c) <==> Unambiguous(c)
  {
    if Unambiguous(c) {
      AlphabetAt(c);
    }
    if i :| 0 <= i < |BACKUP_ALPHABET| && BACKUP_ALPHABET[i] == c {
      AlphabetUnambiguous(i);
    }
  }

  lemma {:induction false} NormalizeLetters(s: string)
    requires forall i :: 0 <= i < |s| ==> IsAlphanumeric(s[i]) && ToUpper(s[i]) == s[i]
    ensures Normalize(s) == s
  {
    if s == [] {
    } else {
      NormalizeLetters(s[1..]);
      assert s == [s[0]] + s[1..];
    }
  }

  /** Normalising a generated code only drops its dash. */
  lemma NormalizeBackupCode(pick: seq<nat>)
    requires IsPick(pick)
    ensures Normalize(BackupCode(pick)) == Letters(pick)
  {
    var s := Letters(pick);
    forall i | 0 <= i < |s|
      ensures IsAlphanumeric(s[i]) && ToUpper(s[i]) == s[i]
    {
      AlphabetLetters(pick[i]);
    }
    NormalizeConcat(s[..4] + "-", s[4..]);
    NormalizeConcat(s[..4], "-");
    NormalizeLetters(s[..4]);
    NormalizeLetters(s[4..]);
    assert "-"[1..] == [];
    assert s == s[..4] + s[4..];
  }

  /** Distinct draws stay distinct after normalisation, so no two draws are confused at redemption. */
  lemma BackupCodesInjective(p: seq<nat>, q: seq<nat>)
    requires IsPick(p) && IsPick(q)
    requires Normalize(BackupCode(p)) == Normalize(BackupCode(q))
    ensures p == q
  {
    NormalizeBackupCode(p);
    NormalizeBackupCode(q);
    forall i | 0 <= i < |p| ensures p[i] == q[i] {
      AlphabetLetters(p[i]);
      AlphabetLetters(q[i]);
      assert Letters(p)[i] == Letters(q)[i];
    }
  }
}
