/** Random password generation (`create_random_password`). The characters come
    from Python's `string` constants; `random.sample` and `random.shuffle` are
    modelled as arbitrary choices, so every property below holds for every
    outcome of the randomness. */
module Password {
  import opened Wrappers

  /** `n` consecutive ASCII characters starting at `first`. */
  function CharRange(first: char, n: nat): (r: string)
    requires first as int + n <= 128
    ensures |r| == n
    ensures forall i :: 0 <= i < n ==> r[i] as int == first as int + i
  {
    seq(n, i requires 0 <= i < n => (first as int + i) as char)
  }

  /** `string.ascii_lowercase`: "abcdefghijklmnopqrstuvwxyz". */
  const AsciiLowercase: string := CharRange('a', 26)
  /** `string.ascii_uppercase`: "ABCDEFGHIJKLMNOPQRSTUVWXYZ". */
  const AsciiUppercase: string := CharRange('A', 26)
  /** `string.digits`: "0123456789". */
  const Digits: string := CharRange('0', 10)
  /** `string.punctuation`: the 32 ASCII punctuation characters, in code order,
      made of the four runs "!" .. "/", ":" .. "@", "[" .. "`" and "{" .. "~". */
  const Punctuation: string := CharRange('!', 15) + CharRange(':', 7) + CharRange('[', 6) + CharRange('{', 4)

  const MinimumLength: int := 5
  const DefaultLength: int := 10

  predicate Distinct<T(==)>(s: seq<T>) {
    forall i, j :: 0 <= i < j < |s| ==> s[i] != s[j]
  }

  /** `positions` picks `k` distinct positions of a sequence of length `size`. */
  predicate IsSelection(positions: seq<int>, k: nat, size: nat) {
    && |positions| == k
    && Distinct(positions)
    && forall i :: 0 <= i < k ==> 0 <= positions[i] < size
  }

  /** Number of characters of `s` that occur in `alphabet`
      (`len([c for c in s if c in alphabet])`). */
  function CountIn(s: string, alphabet: string): (n: nat)
    ensures n <= |s|
  {
    if s == [] then 0 else (if s[0] in alphabet then 1 else 0) + CountIn(s[1..], alphabet)
  }

  /** The length actually produced: requests below the minimum are raised to it. */
  function EffectiveLength(requested: int): (n: int)
    ensures n >= MinimumLength
    ensures requested >= MinimumLength ==> n == requested
  {
    if requested < MinimumLength then MinimumLength else requested
  }

  /** The number of lower-case characters for effective length `n`. */
  function LowerCount(n: int): int requires n >= 0 { n / 4 + n % 4 }

  /** The four alphabets are exactly Python's `string` constants. */
  lemma AlphabetLiterals()
    ensures AsciiLowercase == "abcdefghijklmnopqrstuvwxyz"
    ensures AsciiUppercase == "ABCDEFGHIJKLMNOPQRSTUVWXYZ"
    ensures Digits == "0123456789"
    ensures Punctuation == "!\"#$%&'()*+,-./:;<=>?@[\\]^_`{|}~"
  {
    assert CharRange('!', 15) == "!\"#$%&'()*+,-./";
    assert CharRange(':', 7) == ":;<=>?@";
    assert CharRange('[', 6) == "[\\]^_`";
    assert CharRange('{', 4) == "{|}~";
  }

  /** The number of characters of each other class for effective length `n`. */
  function OtherCount(n: int): int requires n >= 0 { n / 4 }

  /** `random.sample(population, k)`: `k` characters at distinct positions of
      `population`, in any order; fails (ValueError) when `k` exceeds the
      population. */
  method Sample(population: string, k: nat) returns (r: Option<string>)
    ensures r.None? <==> k > |population|
    ensures r.Some? ==> |r.value| == k
    ensures r.Some? ==> forall i :: 0 <= i < |r.value| ==> r.value[i] in population
    ensures r.Some? && Distinct(population) ==> Distinct(r.value)
  {
    if k > |population| {
      return None;
    }
    var identity: seq<int> := seq(k, i => i);
    assert IsSelection(identity, k, |population|);
    var positions: seq<int> :| IsSelection(positions, k, |population|);
    // the verifier uses the chosen value's property below only once restated
    assert IsSelection(positions, k, |population|);
    var picked := seq(k, i requires 0 <= i < k => population[positions[i]]);
    if Distinct(population) {
      forall i, j | 0 <= i < j < k ensures picked[i] != picked[j] {
        assert positions[i] != positions[j];
      }
    }
    r := Some(picked);
  }

  /** `random.shuffle(s)`: any rearrangement of `s`. */
  method Shuffle(s: string) returns (t: string)
    ensures multiset(t) == multiset(s)
  {
    t :| multiset(t) == multiset(s);
  }

  /** A password of length `n` made as `create_random_password` makes it: the
      class counts of the split, and no character twice. */
  predicate Composed(password: string, n: int)
    requires n >= 0
  {
    && |password| == n
    && CountIn(password, AsciiLowercase) == LowerCount(n)
    && CountIn(password, AsciiUppercase) == OtherCount(n)
    && CountIn(password, Digits) == OtherCount(n)
    && CountIn(password, Punctuation) == OtherCount(n)
    && Distinct(password)
  }

  method CreateRandomPassword(passwordLength: int) returns (r: Option<string>)
    ensures r.None? <==> EffectiveLength(passwordLength) / 4 > |Digits|
    ensures r.Some? ==> Composed(r.value, EffectiveLength(passwordLength))
  {
    var length := passwordLength;
    if length < MinimumLength {
      length := MinimumLength;
    }
    var perGroup := length / 4;
    var rest := length % 4;

    AlphabetsDistinct();
    assert |AsciiLowercase| == 26 && |AsciiUppercase| == 26 && |Digits| == 10 && |Punctuation| == 32;
    var characters: string := [];
    var lower := Sample(AsciiLowercase, perGroup + rest);
    if lower.None? { return None; }
    characters := characters + lower.value;
    assert characters == lower.value;
    var upper := Sample(AsciiUppercase, perGroup);
    if upper.None? { return None; }
    characters := characters + upper.value;
    var digits := Sample(Digits, perGroup);
    if digits.None? { return None; }
    characters := characters + digits.value;
    var punctuation := Sample(Punctuation, perGroup);
    if punctuation.None? { return None; }
    characters := characters + punctuation.value;

    characters := Shuffle(characters);

    ShuffledGroups(lower.value, upper.value, digits.value, punctuation.value, characters);
    r := Some(characters);
  }

  /** What the shuffled concatenation of the four samples contains. */
  lemma ShuffledGroups(lower: string, upper: string, digits: string, punctuation: string, shuffled: string)
    requires forall i :: 0 <= i < |lower| ==> lower[i] in AsciiLowercase
    requires forall i :: 0 <= i < |upper| ==> upper[i] in AsciiUppercase
    requires forall i :: 0 <= i < |digits| ==> digits[i] in Digits
    requires forall i :: 0 <= i < |punctuation| ==> punctuation[i] in Punctuation
    requires Distinct(lower) && Distinct(upper) && Distinct(digits) && Distinct(punctuation)
    requires multiset(shuffled) == multiset(lower + upper + digits + punctuation)
    ensures |shuffled| == |lower| + |upper| + |digits| + |punctuation|
    ensures CountIn(shuffled, AsciiLowercase) == |lower|
    ensures CountIn(shuffled, AsciiUppercase) == |upper|
    ensures CountIn(shuffled, Digits) == |digits|
    ensures CountIn(shuffled, Punctuation) == |punctuation|
    ensures Distinct(shuffled)
  {
    var grouped := lower + upper + digits + punctuation;
    assert |shuffled| == |multiset(shuffled)| == |multiset(grouped)| == |grouped|;
    ClassOfAlphabets();
    GroupedCounts(lower, upper, digits, punctuation, AsciiLowercase, AsciiUppercase, Digits, Punctuation);
    GroupsDistinct(lower, upper, digits, punctuation);
    CountInPermutation(grouped, shuffled, AsciiLowercase);
    CountInPermutation(grouped, shuffled, AsciiUppercase);
    CountInPermutation(grouped, shuffled, Digits);
    CountInPermutation(grouped, shuffled, Punctuation);
    DistinctPermutation(grouped, shuffled);
  }

  /** Strictly increasing sequences of characters have no repeats. */
  lemma IncreasingIsDistinct(s: string)
    requires forall i :: 0 <= i < |s| - 1 ==> s[i] < s[i + 1]
    ensures Distinct(s)
  {
    forall i, j | 0 <= i < j < |s| ensures s[i] < s[j] {
      var k := i;
      while k < j
        invariant i <= k <= j
        invariant s[i] <= s[k]
        invariant k > i ==> s[i] < s[k]
      {
        k := k + 1;
      }
    }
  }

  lemma AlphabetsDistinct()
    ensures Distinct(AsciiLowercase) && Distinct(AsciiUppercase)
    ensures Distinct(Digits) && Distinct(Punctuation)
  {
    IncreasingIsDistinct(AsciiLowercase);
    IncreasingIsDistinct(AsciiUppercase);
    IncreasingIsDistinct(Digits);
    IncreasingIsDistinct(Punctuation);
  }

  /** Which of the four classes a character belongs to, by code point range. */
  function ClassOf(c: char): nat {
    if 'a' <= c <= 'z' then 0
    else if 'A' <= c <= 'Z' then 1
    else if '0' <= c <= '9' then 2
    else 3
  }

  lemma ClassOfAlphabets()
    ensures forall c :: c in AsciiLowercase ==> ClassOf(c) == 0
    ensures forall c :: c in AsciiUppercase ==> ClassOf(c) == 1
    ensures forall c :: c in Digits ==> ClassOf(c) == 2
    ensures forall c :: c in Punctuation ==> ClassOf(c) == 3
  {
    ClassOfAlphabet(AsciiLowercase, 0);
    ClassOfAlphabet(AsciiUppercase, 1);
    ClassOfAlphabet(Digits, 2);
    ClassOfAlphabet(Punctuation, 3);
  }

  lemma ClassOfAlphabet(alphabet: string, group: nat)
    requires forall i :: 0 <= i < |alphabet| ==> ClassOf(alphabet[i]) == group
    ensures forall c :: c in alphabet ==> ClassOf(c) == group
  {
  }

  lemma {:induction false} CountInAppend(s: string, t: string, alphabet: string)
    ensures CountIn(s + t, alphabet) == CountIn(s, alphabet) + CountIn(t, alphabet)
  {
    if s == [] {
      assert s + t == t;
    } else {
      assert (s + t)[1..] == s[1..] + t;
      CountInAppend(s[1..], t, alphabet);
    }
  }

  lemma {:induction false} CountInClass(s: string, alphabet: string, group: nat)
    requires forall c :: c in alphabet ==> ClassOf(c) == group
    ensures (forall i :: 0 <= i < |s| ==> s[i] in alphabet) ==> CountIn(s, alphabet) == |s|
    ensures (forall i :: 0 <= i < |s| ==> ClassOf(s[i]) != group) ==> CountIn(s, alphabet) == 0
  {
    if s != [] {
      CountInClass(s[1..], alphabet, group);
    }
  }

  /** How many characters of `alphabet` a sample drawn from `own` holds: all
      of them when `alphabet` is `own`, none when the classes differ. */
  lemma SampleCount(s: string, alphabet: string, group: nat, own: string, ownGroup: nat)
    requires forall c :: c in alphabet ==> ClassOf(c) == group
    requires forall c :: c in own ==> ClassOf(c) == ownGroup
    requires forall i :: 0 <= i < |s| ==> s[i] in own
    ensures alphabet == own ==> CountIn(s, alphabet) == |s|
    ensures group != ownGroup ==> CountIn(s, alphabet) == 0
  {
    CountInClass(s, alphabet, group);
  }

  /** Class counts of four samples laid end to end, for any four
      alphabets that fall into the four character classes. */
  lemma GroupedCounts(lower: string, upper: string, digits: string, punctuation: string,
                      lowerAlphabet: string, upperAlphabet: string, digitAlphabet: string, punctuationAlphabet: string)
    requires forall c :: c in lowerAlphabet ==> ClassOf(c) == 0
    requires forall c :: c in upperAlphabet ==> ClassOf(c) == 1
    requires forall c :: c in digitAlphabet ==> ClassOf(c) == 2
    requires forall c :: c in punctuationAlphabet ==> ClassOf(c) == 3
    requires forall i :: 0 <= i < |lower| ==> lower[i] in lowerAlphabet
    requires forall i :: 0 <= i < |upper| ==> upper[i] in upperAlphabet
    requires forall i :: 0 <= i < |digits| ==> digits[i] in digitAlphabet
    requires forall i :: 0 <= i < |punctuation| ==> punctuation[i] in punctuationAlphabet
    ensures var all := lower + upper + digits + punctuation;
            && CountIn(all, lowerAlphabet) == |lower|
            && CountIn(all, upperAlphabet) == |upper|
            && CountIn(all, digitAlphabet) == |digits|
            && CountIn(all, punctuationAlphabet) == |punctuation|
  {
    var all := lower + upper + digits + punctuation;
    assert CountIn(all, lowerAlphabet) == |lower| by {
      CountInGroups(lower, upper, digits, punctuation, lowerAlphabet);
      SampleCount(lower, lowerAlphabet, 0, lowerAlphabet, 0);
      SampleCount(upper, lowerAlphabet, 0, upperAlphabet, 1);
      SampleCount(digits, lowerAlphabet, 0, digitAlphabet, 2);
      SampleCount(punctuation, lowerAlphabet, 0, punctuationAlphabet, 3);
    }
    assert CountIn(all, upperAlphabet) == |upper| by {
      CountInGroups(lower, upper, digits, punctuation, upperAlphabet);
      SampleCount(lower, upperAlphabet, 1, lowerAlphabet, 0);
      SampleCount(upper, upperAlphabet, 1, upperAlphabet, 1);
      SampleCount(digits, upperAlphabet, 1, digitAlphabet, 2);
      SampleCount(punctuation, upperAlphabet, 1, punctuationAlphabet, 3);
    }
    assert CountIn(all, digitAlphabet) == |digits| by {
      CountInGroups(lower, upper, digits, punctuation, digitAlphabet);
      SampleCount(lower, digitAlphabet, 2, lowerAlphabet, 0);
      SampleCount(upper, digitAlphabet, 2, upperAlphabet, 1);
      SampleCount(digits, digitAlphabet, 2, digitAlphabet, 2);
      SampleCount(punctuation, digitAlphabet, 2, punctuationAlphabet, 3);
    }
    assert CountIn(all, punctuationAlphabet) == |punctuation| by {
      CountInGroups(lower, upper, digits, punctuation, punctuationAlphabet);
      SampleCount(lower, punctuationAlphabet, 3, lowerAlphabet, 0);
      SampleCount(upper, punctuationAlphabet, 3, upperAlphabet, 1);
      SampleCount(digits, punctuationAlphabet, 3, digitAlphabet, 2);
      SampleCount(punctuation, punctuationAlphabet, 3, punctuationAlphabet, 3);
    }
  }

  lemma CountInGroups(lower: string, upper: string, digits: string, punctuation: string, alphabet: string)
    ensures CountIn(lower + upper + digits + punctuation, alphabet)
         == CountIn(lower, alphabet) + CountIn(upper, alphabet) + CountIn(digits, alphabet) + CountIn(punctuation, alphabet)
  {
    CountInAppend(lower + upper + digits, punctuation, alphabet);
    CountInAppend(lower + upper, digits, alphabet);
    CountInAppend(lower, upper, alphabet);
  }

  /** Samples from the four (disjoint) classes never share a character. */
  lemma GroupsDistinct(lower: string, upper: string, digits: string, punctuation: string)
    requires forall i :: 0 <= i < |lower| ==> ClassOf(lower[i]) == 0
    requires forall i :: 0 <= i < |upper| ==> ClassOf(upper[i]) == 1
    requires forall i :: 0 <= i < |digits| ==> ClassOf(digits[i]) == 2
    requires forall i :: 0 <= i < |punctuation| ==> ClassOf(punctuation[i]) == 3
    requires Distinct(lower) && Distinct(upper) && Distinct(digits) && Distinct(punctuation)
    ensures Distinct(lower + upper + digits + punctuation)
  {
    var a, b, c := lower, lower + upper, lower + upper + digits;
    var all := lower + upper + digits + punctuation;
    forall i, j | 0 <= i < j < |all| ensures all[i] != all[j] {
      if j < |a| {
        assert all[i] == lower[i] && all[j] == lower[j];
      } else if j < |b| && i >= |a| {
        assert all[i] == upper[i - |a|] && all[j] == upper[j - |a|];
      } else if j < |c| && i >= |b| {
        assert all[i] == digits[i - |b|] && all[j] == digits[j - |b|];
      } else if i >= |c| {
        assert all[i] == punctuation[i - |c|] && all[j] == punctuation[j - |c|];
      } else {
        assert ClassOf(all[i]) < ClassOf(all[j]);
      }
    }
  }

  lemma {:induction false} CountInPermutation(s: string, t: string, alphabet: string)
    requires multiset(s) == multiset(t)
    ensures CountIn(s, alphabet) == CountIn(t, alphabet)
  {
    if s == [] {
      assert |t| == |multiset(t)| == 0;
    } else {
      assert s[0] in multiset(t);
      var j :| 0 <= j < |t| && t[j] == s[0];
      var rest := t[..j] + t[j + 1..];
      MultisetRemove(s, t, j);
      CountInPermutation(s[1..], rest, alphabet);
      CountInRemove(t, j, alphabet);
    }
  }

  lemma MultisetRemove(s: string, t: string, j: nat)
    requires multiset(s) == multiset(t)
    requires s != [] && j < |t| && t[j] == s[0]
    ensures multiset(s[1..]) == multiset(t[..j] + t[j + 1..])
  {
    assert s == [s[0]] + s[1..];
    assert t == t[..j] + [t[j]] + t[j + 1..];
    assert multiset(s) == multiset{s[0]} + multiset(s[1..]);
    assert multiset(t) == multiset(t[..j]) + multiset{t[j]} + multiset(t[j + 1..]);
    var rest := multiset(t[..j] + t[j + 1..]);
    assert rest == multiset(t[..j]) + multiset(t[j + 1..]);
    forall x ensures multiset(s[1..])[x] == rest[x] {
      assert multiset(s)[x] == multiset(t)[x];
    }
  }

  lemma CountInRemove(t: string, j: nat, alphabet: string)
    requires j < |t|
    ensures CountIn(t, alphabet) == (if t[j] in alphabet then 1 else 0) + CountIn(t[..j] + t[j + 1..], alphabet)
  {
    assert t == t[..j] + [t[j]] + t[j + 1..];
    CountInAppend(t[..j] + [t[j]], t[j + 1..], alphabet);
    CountInAppend(t[..j], [t[j]], alphabet);
    CountInAppend(t[..j], t[j + 1..], alphabet);
  }

  lemma DistinctPermutation(s: string, t: string)
    requires multiset(s) == multiset(t)
    requires Distinct(s)
    ensures Distinct(t)
  {
    forall i, j | 0 <= i < j < |t| ensures t[i] != t[j] {
      if t[i] == t[j] {
        assert t == t[..i] + [t[i]] + t[i + 1..j] + [t[j]] + t[j + 1..];
        assert multiset(t)[t[i]] >= 2;
        DistinctCountsOne(s, t[i]);
      }
    }
  }

  lemma {:induction false} DistinctCountsOne(s: string, c: char)
    requires Distinct(s)
    ensures multiset(s)[c] <= 1
  {
    if s != [] {
      assert s == [s[0]] + s[1..];
      assert Distinct(s[1..]);
      DistinctCountsOne(s[1..], c);
      if s[0] == c {
        assert c !in s[1..];
      }
    }
  }

  /** The sample of digits is the first to exceed its population: the call
      fails exactly for effective lengths of 44 and more. */
  lemma FailsFromLength44(passwordLength: int)
    ensures EffectiveLength(passwordLength) / 4 > |Digits| <==> passwordLength >= 44
  {
  }

  /** The class split: the counts add up to the length, every class gets at
      least one character, and a request of 9 gives 3, 2, 2 and 2. */
  lemma ClassSplit(passwordLength: int)
    ensures var n := EffectiveLength(passwordLength);
            LowerCount(n) + 3 * OtherCount(n) == n && OtherCount(n) >= 1 && LowerCount(n) >= OtherCount(n)
    ensures EffectiveLength(1) == 5 && EffectiveLength(DefaultLength) == 10
    ensures LowerCount(EffectiveLength(9)) == 3 && OtherCount(EffectiveLength(9)) == 2
  {
  }

  /** What `create_random_password` raises when called as `main` calls it. */
  datatype GenerationError =
    | TypeError   // `None < 5`: the `-l` option was omitted, so argparse passed `None`
    | ValueError  // `random.sample` was asked for more characters than its alphabet holds

  /** `create_random_password(args.password_length)` as written: argparse
      yields `None` for an omitted `-l`, and the first comparison with
      `MINIMUM_LENGTH` then raises before any character is drawn. */
  method CreateRandomPasswordAsWritten(passwordLength: Option<int>) returns (r: Result<string, GenerationError>)
    ensures passwordLength.None? ==> r == Failure(TypeError)
    ensures passwordLength.Some? ==>
              && (r.Failure? <==> EffectiveLength(passwordLength.value) / 4 > |Digits|)
              && (r.Failure? ==> r.error == ValueError)
              && (r.Success? ==> Composed(r.value, EffectiveLength(passwordLength.value)))
  {
    if passwordLength.None? {
      return Failure(TypeError);
    }
    var password := CreateRandomPassword(passwordLength.value);
    if password.None? {
      return Failure(ValueError);
    }
    return Success(password.value);
  }

  /** The corrected reading of the `-l` option: an omitted length falls back to
      the documented default of 10. */
  function LengthArgument(option: Option<int>): (n: int)
    ensures option.Some? ==> n == option.value
    ensures option.None? ==> n == DefaultLength
  {
    match option
    case None => DefaultLength
    case Some(n) => n
  }

  /** With the correction, `add` without `-l` makes a password of the default
      length 10, and every length used is at least the minimum. */
  lemma OmittedLength()
    ensures EffectiveLength(LengthArgument(None)) == 10
    ensures forall option: Option<int> :: EffectiveLength(LengthArgument(option)) >= MinimumLength
  {
  }
}
