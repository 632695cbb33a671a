/**
 * Paste identifiers (`generate_id` in src/io.rs, repeated verbatim in src/main.rs):
 * twelve characters, each picked by a uniformly drawn index into an alphabet of
 * letters that leaves out the look-alikes i, l, o, I, L and O.
 *
 * The random source is outside the model: a draw is the sequence of the twelve
 * indices the source's `Uniform` distribution produced.
 */
module Ids {
  import Utf8

  /** A paste's key: the identifier `generate_id` returned, or whatever a client asks for. */
  type Id = string

  /** The alphabet literal of `generate_id`. */
  const Alphabet: string := "abcdefghjkmnpqrstuvwxyzABCDEFGHJKMNPQRSTUVWXYZ"

  /** `take(12)`. */
  const IdLength: nat := 12

  /**
   * The exclusive bound of `Uniform::from(0..valid_chars.len())`: `str::len` is a
   * length in bytes, while the indices go into the vector of characters.
   */
  function SampleBound(): nat {
    Utf8.ByteLength(Alphabet)
  }

  predicate IsConfusable(c: char) {
    c == 'i' || c == 'l' || c == 'o' || c == 'I' || c == 'L' || c == 'O'
  }

  predicate IsIdChar(c: char) {
    ('a' <= c <= 'z' || 'A' <= c <= 'Z') && !IsConfusable(c)
  }

  /** The shape every generated identifier has. */
  predicate IsId(id: string) {
    |id| == IdLength && forall i :: 0 <= i < |id| ==> IsIdChar(id[i])
  }

  /** Twelve indices, each inside the range the source samples from. */
  predicate IsDraw(samples: seq<nat>) {
    |samples| == IdLength && forall i :: 0 <= i < |samples| ==> samples[i] < SampleBound()
  }

  /** `generate_id`, given the indices its random source drew. */
  function GenerateId(samples: seq<nat>): (id: string)
    requires IsDraw(samples)
    ensures IsId(id)
  {
    AlphabetSize();
    AlphabetSound();
    seq(IdLength, i requires 0 <= i < IdLength => Alphabet[samples[i]])
  }

  /** Offset in the Latin alphabet of the letter with rank `r` among the 23 kept ones. */
  function LetterOffset(r: int): int {
    r + (if r >= 8 then 1 else 0) + (if r >= 10 then 1 else 0) + (if r >= 12 then 1 else 0)
  }

  /** The character at position `r` of the alphabet, computed rather than looked up. */
  function Letter(r: nat): char
    requires r < 46
  {
    if r < 23 then (0x61 + LetterOffset(r)) as char else (0x41 + LetterOffset(r - 23)) as char
  }

  /** The position of an identifier character in the alphabet. */
  function Rank(c: char): (r: nat)
    requires IsIdChar(c)
    ensures r < 46 && Letter(r) == c
  {
    var lower := 'a' <= c <= 'z';
    var x := if lower then c as int - 0x61 else c as int - 0x41;
    var k := x - (if x > 8 then 1 else 0) - (if x > 11 then 1 else 0) - (if x > 14 then 1 else 0);
    if lower then k else 23 + k
  }

  /** The indices that make `generate_id` produce `id`. */
  function SamplesOf(id: string): (samples: seq<nat>)
    requires IsId(id)
    ensures IsDraw(samples)
  {
    AlphabetSize();
    seq(IdLength, i requires 0 <= i < IdLength => Rank(id[i]))
  }

  lemma AlphabetHalves()
    ensures Alphabet == "abcdefghjkmnpqrstuvwxyz" + "ABCDEFGHJKMNPQRSTUVWXYZ"
  {
  }

  lemma AlphabetAt(k: nat)
    requires k < |Alphabet|
    ensures Alphabet[k] == Letter(k)
  {
    AlphabetHalves();
  }

  /**
   * `valid_chars.len()`, the range the indices are drawn from, is 46, the number of
   * characters, because every character of the alphabet is ASCII: no index is out of
   * bounds of the character vector.
   */
  lemma AlphabetSize()
    ensures |Alphabet| == 46 && Utf8.IsAscii(Alphabet) && SampleBound() == |Alphabet|
  {
    AlphabetHalves();
    forall k | 0 <= k < |Alphabet| ensures Alphabet[k] as int < 0x80 {
      AlphabetAt(k);
    }
    Utf8.AsciiByteLength(Alphabet, |Alphabet|);
  }

  /** Every character of the alphabet is a letter other than i, l, o, I, L, O; none repeats. */
  lemma AlphabetSound()
    ensures forall k :: 0 <= k < |Alphabet| ==> IsIdChar(Alphabet[k]) && Rank(Alphabet[k]) == k
  {
    forall k | 0 <= k < |Alphabet| ensures IsIdChar(Alphabet[k]) && Rank(Alphabet[k]) == k {
      AlphabetAt(k);
    }
  }

  /** Every letter other than i, l, o, I, L, O is in the alphabet. */
  lemma AlphabetComplete(c: char)
    requires IsIdChar(c)
    ensures Rank(c) < |Alphabet| && Alphabet[Rank(c)] == c
  {
    AlphabetAt(Rank(c));
  }

  /** Every identifier of the right shape is produced by exactly one draw: this one. */
  lemma GenerateSamplesOf(id: string)
    requires IsId(id)
    ensures GenerateId(SamplesOf(id)) == id
  {
    var g := GenerateId(SamplesOf(id));
    forall i | 0 <= i < IdLength ensures g[i] == id[i] {
      AlphabetComplete(id[i]);
    }
  }

  /** Different draws give different identifiers: the id determines the indices drawn. */
  lemma SamplesOfGenerate(samples: seq<nat>)
    requires IsDraw(samples)
    ensures SamplesOf(GenerateId(samples)) == samples
  {
    AlphabetSize();
    AlphabetSound();
  }
}
