/**
 * The shape of style-variable identifiers: a category prefix, an underscore
 * and six characters from a 62-letter alphabet (figma/client.go, function
 * generateVarId).
 *
 * The source draws the six characters at random. The model replaces the
 * random draws by an enumeration of the same space: suffix number `n` is `n`
 * written in base 62 with six digits. `Candidate` enumerates exactly the
 * identifiers the random generator can produce, each once, so any
 * identifier the model picks is one the source could have picked.
 */
module VarId {

  /** The alphabet of the random suffix, in the source's order. */
  const Alphabet: string := UpperLetters + LowerLetters + Digits

  const UpperLetters: string := "ABCDEFGHIJKLMNOPQRSTUVWXYZ"
  const LowerLetters: string := "abcdefghijklmnopqrstuvwxyz"
  const Digits: string := "0123456789"

  const SuffixLength: nat := 6

  predicate InAlphabet(c: char) {
    'A' <= c <= 'Z' || 'a' <= c <= 'z' || '0' <= c <= '9'
  }

  /** Letter number `d` of the alphabet. */
  function AlphabetChar(d: nat): (c: char)
    requires d < 62
    ensures InAlphabet(c)
  {
    if d < 26 then ('A' as int + d) as char
    else if d < 52 then ('a' as int + (d - 26)) as char
    else ('0' as int + (d - 52)) as char
  }

  /** The position of an alphabet letter. */
  function AlphabetIndex(c: char): (d: nat)
    requires InAlphabet(c)
    ensures d < 62
    ensures AlphabetChar(d) == c
  {
    if 'A' <= c <= 'Z' then c as int - 'A' as int
    else if 'a' <= c <= 'z' then c as int - 'a' as int + 26
    else c as int - '0' as int + 52
  }

  /** The arithmetic alphabet is the source's literal alphabet. */
  lemma AlphabetCharIsListed(d: nat)
    requires d < 62
    ensures |Alphabet| == 62
    ensures AlphabetChar(d) == Alphabet[d]
  {
    if d < 26 {
      assert Alphabet[d] == UpperLetters[d];
    } else if d < 52 {
      assert Alphabet[d] == LowerLetters[d - 26];
    } else {
      assert Alphabet[d] == Digits[d - 52];
    }
  }

  function Pow62(k: nat): (p: nat)
    ensures 1 <= p
  {
    if k == 0 then 1 else 62 * Pow62(k - 1)
  }

  /** The number of distinct suffixes, 62 to the sixth. */
  const IdSpace: nat := Pow62(SuffixLength)

  /** `n` written with `k` base-62 digits, most significant first. */
  function Encode(n: nat, k: nat): (s: string)
    ensures |s| == k
    ensures forall i :: 0 <= i < k ==> InAlphabet(s[i])
  {
    if k == 0 then [] else Encode(n / 62, k - 1) + [AlphabetChar(n % 62)]
  }

  /** The number a string of alphabet letters denotes in base 62. */
  function Decode(s: string): nat
    requires forall i :: 0 <= i < |s| ==> InAlphabet(s[i])
  {
    if s == [] then 0 else Decode(s[..|s| - 1]) * 62 + AlphabetIndex(s[|s| - 1])
  }

  lemma {:induction false} DecodeBound(s: string)
    requires forall i :: 0 <= i < |s| ==> InAlphabet(s[i])
    ensures Decode(s) < Pow62(|s|)
  {
    if s != [] {
      DecodeBound(s[..|s| - 1]);
    }
  }

  lemma {:induction false} DecodeEncode(n: nat, k: nat)
    requires n < Pow62(k)
    ensures Decode(Encode(n, k)) == n
  {
    if k > 0 {
      var s := Encode(n, k);
      assert s[..|s| - 1] == Encode(n / 62, k - 1);
      assert n / 62 < Pow62(k - 1);
      DecodeEncode(n / 62, k - 1);
    }
  }

  lemma {:induction false} EncodeDecode(s: string)
    requires forall i :: 0 <= i < |s| ==> InAlphabet(s[i])
    ensures Encode(Decode(s), |s|) == s
  {
    if s != [] {
      var init := s[..|s| - 1];
      var d := AlphabetIndex(s[|s| - 1]);
      assert Decode(s) == Decode(init) * 62 + d;
      assert Decode(s) / 62 == Decode(init);
      assert Decode(s) % 62 == d;
      EncodeDecode(init);
      assert s == init + [s[|s| - 1]];
    }
  }

  /** Identifier number `n` under `prefix`. */
  function Candidate(prefix: string, n: nat): string
    requires n < IdSpace
  {
    prefix + "_" + Encode(n, SuffixLength)
  }

  /** `id` is one the source's generator can produce for `prefix`. */
  predicate IsVarId(id: string, prefix: string) {
    && |id| == |prefix| + 1 + SuffixLength
    && id[..|prefix|] == prefix
    && id[|prefix|] == '_'
    && forall i :: |prefix| < i < |id| ==> InAlphabet(id[i])
  }

  /**
   * The enumeration is exactly the generator's range: every candidate has
   * the identifier shape, and every identifier of that shape is a candidate.
   */
  lemma CandidatesAreVarIds(prefix: string)
    ensures forall n :: 0 <= n < IdSpace ==> IsVarId(Candidate(prefix, n), prefix)
    ensures forall id :: IsVarId(id, prefix) ==>
      exists n :: 0 <= n < IdSpace && Candidate(prefix, n) == id
  {
    forall id | IsVarId(id, prefix)
      ensures exists n :: 0 <= n < IdSpace && Candidate(prefix, n) == id
    {
      var suffix := id[|prefix| + 1..];
      assert forall i :: 0 <= i < |suffix| ==> InAlphabet(suffix[i]) by {
        forall i | 0 <= i < |suffix| ensures InAlphabet(suffix[i]) {
          assert suffix[i] == id[|prefix| + 1 + i];
        }
      }
      DecodeBound(suffix);
      EncodeDecode(suffix);
      var n := Decode(suffix);
      assert id == prefix + "_" + suffix;
      assert Candidate(prefix, n) == id;
    }
  }

  /** Distinct suffix numbers give distinct identifiers. */
  lemma CandidateInjective(prefix: string, n: nat, m: nat)
    requires n < IdSpace && m < IdSpace
    requires Candidate(prefix, n) == Candidate(prefix, m)
    ensures n == m
  {
    var a := Candidate(prefix, n);
    assert a[|prefix| + 1..] == Encode(n, SuffixLength);
    assert Candidate(prefix, m)[|prefix| + 1..] == Encode(m, SuffixLength);
    DecodeEncode(n, SuffixLength);
    DecodeEncode(m, SuffixLength);
  }

  /** The first `count` candidates under `prefix`. */
  function FirstCandidates(prefix: string, count: nat): set<string>
    requires count <= IdSpace
  {
    set n | 0 <= n < count :: Candidate(prefix, n)
  }

  lemma FirstCandidatesStep(prefix: string, count: nat)
    requires 0 < count <= IdSpace
    ensures FirstCandidates(prefix, count) == FirstCandidates(prefix, count - 1) + {Candidate(prefix, count - 1)}
  {
  }

  lemma LastCandidateIsNew(prefix: string, count: nat)
    requires 0 < count <= IdSpace
    ensures Candidate(prefix, count - 1) !in FirstCandidates(prefix, count - 1)
  {
    if Candidate(prefix, count - 1) in FirstCandidates(prefix, count - 1) {
      var n :| 0 <= n < count - 1 && Candidate(prefix, n) == Candidate(prefix, count - 1);
      CandidateInjective(prefix, n, count - 1);
    }
  }

  lemma {:induction false} FirstCandidatesSize(prefix: string, count: nat)
    requires count <= IdSpace
    ensures |FirstCandidates(prefix, count)| == count
  {
    if count > 0 {
      var before, next := FirstCandidates(prefix, count - 1), Candidate(prefix, count - 1);
      FirstCandidatesSize(prefix, count - 1);
      FirstCandidatesStep(prefix, count);
      LastCandidateIsNew(prefix, count);
      AddFresh(before, next, FirstCandidates(prefix, count));
    }
  }

  lemma AddFresh<T>(a: set<T>, x: T, b: set<T>)
    requires x !in a && b == a + {x}
    ensures |b| == |a| + 1
  {
  }

  /**
   * Pigeonhole: a set of fewer than 62^6 names misses some candidate, so the
   * source's retry loop ends.
   */
  lemma FreeCandidateExists(prefix: string, taken: set<string>)
    requires |taken| < IdSpace
    ensures exists n :: 0 <= n < IdSpace && Candidate(prefix, n) !in taken
  {
    if forall n :: 0 <= n < IdSpace ==> Candidate(prefix, n) in taken {
      assert FirstCandidates(prefix, IdSpace) <= taken;
      FirstCandidatesSize(prefix, IdSpace);
      SubsetSize(FirstCandidates(prefix, IdSpace), taken);
      assert false;
    }
  }

  lemma SubsetSize<T>(a: set<T>, b: set<T>)
    requires a <= b
    ensures |a| <= |b|
  {
    assert b == a + (b - a);
  }
}
