/** The deterministic part of `generate_secret_number` in app.py: after the ten digits have
    been shuffled, a leading '0' trades places with the first non-zero digit, and the first
    three digits form the secret. The shuffle itself is an input. */
module SecretNumber {
  import opened Scoring

  /** The list app.py shuffles: `list('0123456789')`. */
  const TenDigits: string := "0123456789"

  /** `shuffled` is some ordering of the ten decimal digits. */
  predicate IsPermutationOfDigits(shuffled: seq<char>) {
    multiset(shuffled) == multiset(TenDigits)
  }

  /** Ten pairwise-distinct decimal digits: what the generator relies on of its shuffle. */
  predicate IsShuffleOfDigits(shuffled: seq<char>) {
    |shuffled| == 10 && AllDigits(shuffled) && Distinct(shuffled)
  }

  /** What the game stores as its secret: three distinct digits, the first not '0'. */
  predicate IsSecretShape(s: string) {
    |s| == 3 && AllDigits(s) && Distinct(s) && s[0] != '0'
  }

  /** Index of the first character at or after `i` that is not '0', or `|d|` if there is none. */
  function FirstNonZeroFrom(d: seq<char>, i: nat): (k: nat)
    requires i <= |d|
    ensures i <= k <= |d|
    ensures k < |d| ==> d[k] != '0'
    ensures forall j :: i <= j < k ==> d[j] == '0'
    decreases |d| - i
  {
    if i == |d| then i
    else if d[i] != '0' then i
    else FirstNonZeroFrom(d, i + 1)
  }

  /** The digit list after the repair of app.py: unchanged unless it starts with '0', in which
      case the '0' is swapped with the first non-zero digit among positions 1..9. */
  function LeadingZeroRepaired(d: seq<char>): (r: seq<char>)
    requires |d| == 10
    ensures |r| == 10 && multiset(r) == multiset(d)
    ensures d[0] != '0' ==> r == d
    ensures (exists j :: 0 <= j < 10 && d[j] != '0') ==> r[0] != '0'
  {
    if d[0] != '0' then d
    else
      var k := FirstNonZeroFrom(d, 1);
      if k < |d| then SwapKeepsMultiset(d, k); d[0 := d[k]][k := d[0]] else d
  }

  /** Exchanging the first element with the one at `k` rearranges the sequence. */
  lemma SwapKeepsMultiset(d: seq<char>, k: nat)
    requires 0 < k < |d|
    ensures multiset(d[0 := d[k]][k := d[0]]) == multiset(d)
  {
    var r := d[0 := d[k]][k := d[0]];
    assert d == [d[0]] + d[1..k] + [d[k]] + d[k + 1..];
    assert r == [d[k]] + d[1..k] + [d[0]] + d[k + 1..];
  }

  /** A character that occurs at two positions occurs at least twice in the multiset. */
  lemma RepeatedCountsTwice(t: seq<char>, i: nat, j: nat)
    requires i < j < |t| && t[i] == t[j]
    ensures multiset(t)[t[i]] >= 2
  {
    assert t == t[..j] + t[j..];
    assert t[i] == t[..j][i];
    assert t[j] == t[j..][0];
    assert multiset(t) == multiset(t[..j]) + multiset(t[j..]);
  }

  /** In a distinct sequence every character occurs at most once. */
  lemma {:induction false} DistinctCountsOnce(s: seq<char>, c: char)
    requires forall i, j :: 0 <= i < j < |s| ==> s[i] != s[j]
    ensures multiset(s)[c] <= 1
  {
    if s != [] {
      DistinctCountsOnce(s[1..], c);
      assert s == [s[0]] + s[1..];
      assert multiset(s) == multiset{s[0]} + multiset(s[1..]);
      if s[0] == c {
        assert c !in s[1..];
      }
    }
  }

  /** A rearrangement of a distinct sequence is distinct, has the same length and holds
      only its characters. */
  lemma RearrangedDistinct(s: seq<char>, t: seq<char>)
    requires multiset(s) == multiset(t)
    requires forall i, j :: 0 <= i < j < |t| ==> t[i] != t[j]
    ensures |s| == |t|
    ensures forall i :: 0 <= i < |s| ==> s[i] in t
    ensures forall i, j :: 0 <= i < j < |s| ==> s[i] != s[j]
  {
    assert |s| == |multiset(s)| == |multiset(t)| == |t|;
    forall i | 0 <= i < |s| ensures s[i] in t {
      assert s[i] in multiset(s);
    }
    forall i, j | 0 <= i < j < |s| ensures s[i] != s[j] {
      var c := s[i];
      DistinctCountsOnce(t, c);
      if c == s[j] {
        RepeatedCountsTwice(s, i, j);
      }
    }
  }

  /** TenDigits holds nothing but decimal digits. */
  lemma OnlyDigitsInTenDigits(c: char)
    requires c in TenDigits
    ensures IsDigit(c)
  {
  }

  /** Whatever order `random.shuffle` leaves the ten digits in, they are ten distinct digits. */
  lemma PermutationIsShuffleOfDigits(d: seq<char>)
    requires IsPermutationOfDigits(d)
    ensures IsShuffleOfDigits(d)
  {
    TenDigitsAreDistinct();
    RearrangedDistinct(d, TenDigits);
    forall i | 0 <= i < |d| ensures IsDigit(d[i]) {
      OnlyDigitsInTenDigits(d[i]);
    }
  }

  /** A distinct string has as many different characters as positions. */
  lemma {:induction false} DistinctDigitSetSize(s: string)
    requires Distinct(s)
    ensures |DigitSet(s)| == |s|
    decreases |s|
  {
    if s != [] {
      var n := |s|;
      DistinctDigitSetSize(s[..n - 1]);
      DigitSetOfLongerPrefix(s, n);
      DistinctNotInPrefix(s, n);
      assert s[..n] == s;
    }
  }

  /** The ten decimal digits are exactly the characters of TenDigits. */
  lemma DigitInTenDigits(c: char)
    requires IsDigit(c)
    ensures c in DigitSet(TenDigits)
  {
    var i := c as int - '0' as int;
    assert TenDigits[i] == c;
  }

  /** Two distinct strings with the same characters have the same multiset. */
  lemma SameCharactersSameMultiset(s: string, t: string)
    requires Distinct(s) && Distinct(t) && DigitSet(s) == DigitSet(t)
    ensures multiset(s) == multiset(t)
  {
    forall c ensures multiset(s)[c] == multiset(t)[c] {
      DistinctCountsOnce(s, c);
      DistinctCountsOnce(t, c);
      InDigitSet(s, c);
      InDigitSet(t, c);
    }
  }

  /** TenDigits holds ten different characters. */
  lemma TenDigitsAreDistinct()
    ensures Distinct(TenDigits) && |DigitSet(TenDigits)| == 10
  {
    assert Distinct(TenDigits);
    DistinctDigitSetSize(TenDigits);
  }

  /** Conversely, ten distinct digits are a permutation of "0123456789", so the two
      predicates describe the same inputs. */
  lemma ShuffleIsPermutationOfDigits(d: seq<char>)
    requires IsShuffleOfDigits(d)
    ensures IsPermutationOfDigits(d)
  {
    var all := DigitSet(TenDigits);
    var have := DigitSet(d);
    assert have <= all by {
      forall c | c in have ensures c in all {
        DigitInTenDigits(c);
      }
    }
    DistinctDigitSetSize(d);
    TenDigitsAreDistinct();
    assert |all - have| == |all| - |have| == 0;
    assert have == all;
    SameCharactersSameMultiset(d, TenDigits);
  }

  /** For every shuffle, the repair yields a secret of three distinct digits without a
      leading zero; the '0' is always found in front of a non-zero digit at position 1. */
  lemma RepairedSecretShape(d: seq<char>)
    requires IsShuffleOfDigits(d)
    ensures IsSecretShape(LeadingZeroRepaired(d)[..3])
  {
  }

  /** `generate_secret_number` with the result of `random.shuffle` as its argument: copies the
      digits into a list, swaps a leading '0' with the first non-zero digit in a loop that
      stops at the first swap, and joins the first three digits. */
  method GenerateSecretNumber(shuffled: seq<char>) returns (secret: string)
    requires IsShuffleOfDigits(shuffled)
    ensures secret == LeadingZeroRepaired(shuffled)[..3]
    ensures IsSecretShape(secret)
  {
    RepairedSecretShape(shuffled);
    var digits := new char[10](i requires 0 <= i < 10 => shuffled[i]);
    if digits[0] == '0' {
      for i := 1 to 10
        invariant digits[..] == shuffled
        invariant forall j :: 1 <= j < i ==> shuffled[j] == '0'
      {
        if digits[i] != '0' {
          assert FirstNonZeroFrom(shuffled, 1) == i;
          digits[0], digits[i] := digits[i], digits[0];
          break;
        }
      }
    }
    assert digits[..] == LeadingZeroRepaired(shuffled);
    secret := digits[..3];
  }
}
