/** Path canonicalisation: backslashes become slashes, the path is lower-cased,
    and everything up to the first occurrence of a marker is dropped. */
module PathCanon {
  import opened Wrappers

  const Backslash: char := '\\'
  const Slash: char := '/'

  /** `backslash_to_slash`: every backslash is replaced by a slash, in place. */
  function BackslashToSlash(s: string): (r: string)
    ensures |r| == |s|
    ensures Backslash !in r
    ensures forall i :: 0 <= i < |s| && s[i] != Backslash ==> r[i] == s[i]
    ensures forall i :: 0 <= i < |s| && s[i] == Backslash ==> r[i] == Slash
  {
    if |s| == 0 then []
    else [if s[0] == Backslash then Slash else s[0]] + BackslashToSlash(s[1..])
  }

  /** A string already free of backslashes is left alone, so converting
      twice is converting once. */
  lemma BackslashToSlashIdempotent(s: string)
    ensures BackslashToSlash(BackslashToSlash(s)) == BackslashToSlash(s)
  {
    var once := BackslashToSlash(s);
    var twice := BackslashToSlash(once);
    assert forall i :: 0 <= i < |once| ==> twice[i] == once[i];
  }

  /** Lower-casing of one character: ASCII capitals map to small letters,
      every other character is kept. */
  function LowerChar(c: char): (r: char)
    ensures 'A' <= c <= 'Z' ==> 'a' <= r <= 'z' && r as int - c as int == 'a' as int - 'A' as int
    ensures !('A' <= c <= 'Z') ==> r == c
  {
    if 'A' <= c <= 'Z' then (c as int - 'A' as int + 'a' as int) as char else c
  }

  /** `to_lower`, character by character. */
  function ToLower(s: string): (r: string)
    ensures |r| == |s|
    ensures forall i :: 0 <= i < |s| ==> r[i] == LowerChar(s[i])
  {
    if |s| == 0 then [] else [LowerChar(s[0])] + ToLower(s[1..])
  }

  /** The string the canoniser searches: lower-cased, then slashes converted. */
  function Normalized(path: string): string
  {
    BackslashToSlash(ToLower(path))
  }

  /** `pat` occurs in `s` starting at index `i`. */
  predicate OccursAt(s: string, pat: string, i: nat)
  {
    i + |pat| <= |s| && s[i..i + |pat|] == pat
  }

  /** `s.find(pat, from)`: the first index at or after `from` where `pat`
      occurs, or `None` (`npos`). */
  function FindFrom(s: string, pat: string, from: nat): (r: Option<nat>)
    decreases |s| - from
    ensures r.Some? ==> from <= r.value && OccursAt(s, pat, r.value)
    ensures r.Some? ==> forall j: nat :: from <= j < r.value ==> !OccursAt(s, pat, j)
    ensures r.None? ==> forall j: nat :: from <= j ==> !OccursAt(s, pat, j)
  {
    if from + |pat| > |s| then None
    else if s[from..from + |pat|] == pat then Some(from)
    else FindFrom(s, pat, from + 1)
  }

  function Find(s: string, pat: string): (r: Option<nat>)
    ensures r.Some? ==> OccursAt(s, pat, r.value) && forall j: nat :: j < r.value ==> !OccursAt(s, pat, j)
    ensures r.None? ==> forall j: nat :: !OccursAt(s, pat, j)
  {
    FindFrom(s, pat, 0)
  }

  /** The function `make_path_canonizer(start)` returns, applied to `path`
      (given as its generic string). */
  function Canonize(start: string, path: string): (r: string)
    ensures Backslash !in r
    ensures (forall j: nat :: !OccursAt(Normalized(path), start, j)) ==> r == Normalized(path)
    ensures forall j: nat :: OccursAt(Normalized(path), start, j) &&
                        (forall k: nat :: k < j ==> !OccursAt(Normalized(path), start, k))
                        ==> r == Normalized(path)[j + |start|..]
  {
    var str := Normalized(path);
    match Find(str, start)
    case None => str
    case Some(i) =>
      FirstOccurrenceUnique(str, start, i);
      str[i + |start|..]
  }

  /** Two first occurrences are the same occurrence. */
  lemma FirstOccurrenceUnique(s: string, pat: string, i: nat)
    requires OccursAt(s, pat, i) && forall k: nat :: k < i ==> !OccursAt(s, pat, k)
    ensures forall j: nat :: OccursAt(s, pat, j) && (forall k: nat :: k < j ==> !OccursAt(s, pat, k)) ==> j == i
  {
  }

  /** The result is always a suffix of the normalised path. */
  lemma CanonizeIsSuffix(start: string, path: string)
    ensures exists k :: 0 <= k <= |Normalized(path)| && Canonize(start, path) == Normalized(path)[k..]
  {
    var str := Normalized(path);
    match Find(str, start)
    case None =>
      assert Canonize(start, path) == str[0..];
    case Some(i) =>
      assert Canonize(start, path) == str[i + |start|..];
  }

  /** An empty marker occurs at 0, so nothing is stripped. */
  lemma EmptyStartKeepsAll(path: string)
    ensures Canonize("", path) == Normalized(path)
  {
    assert OccursAt(Normalized(path), "", 0);
  }

  /** A marker containing a backslash can never match the converted string. */
  lemma BackslashStartNeverMatches(start: string, path: string)
    requires Backslash in start
    ensures Canonize(start, path) == Normalized(path)
  {
  }

  /** A marker containing an ASCII capital can never match the lower-cased
      string: the marker itself is not lower-cased. */
  lemma UppercaseStartNeverMatches(start: string, path: string)
    requires exists k :: 0 <= k < |start| && 'A' <= start[k] <= 'Z'
    ensures Canonize(start, path) == Normalized(path)
  {
    var k :| 0 <= k < |start| && 'A' <= start[k] <= 'Z';
    var str := Normalized(path);
    forall j: nat
      ensures !OccursAt(str, start, j)
    {
      if j + |start| <= |str| {
        assert str[j..j + |start|][k] == str[j + k];
        assert !('A' <= str[j + k] <= 'Z');
      }
    }
  }

  /** ASCII strings without capitals are left as they are. */
  lemma ToLowerKeepsNonCapitals(s: string)
    requires forall i :: 0 <= i < |s| ==> s[i] as int < 128 && !('A' <= s[i] <= 'Z')
    ensures ToLower(s) == s
  {
  }

  /** The string tests' small-letter case: the alphabet stays as it is. */
  lemma ToLowerKeepsSmallLetters(lower: string)
    requires lower == "abcdefghijklmnopqrstuvxyz"
    ensures ToLower(lower) == lower
  {
    ToLowerKeepsNonCapitals(lower);
  }

  /** The string tests' punctuation case: punctuation stays as it is. */
  lemma ToLowerKeepsPunctuation(punctuation: string)
    requires punctuation == "&\"'(-_),;:!"
    ensures ToLower(punctuation) == punctuation
  {
    ToLowerKeepsNonCapitals(punctuation);
  }

  /** Strings of ASCII capitals lower-case character by character onto the
      matching small letters. */
  lemma ToLowerCapitals(s: string, t: string)
    requires |s| == |t|
    requires forall i :: 0 <= i < |s| ==> 'A' <= s[i] <= 'Z' && t[i] as int == s[i] as int + 32
    ensures ToLower(s) == t
  {
    var r := ToLower(s);
    forall i | 0 <= i < |s|
      ensures r[i] == t[i]
    {
      assert r[i] == LowerChar(s[i]);
      assert r[i] as int == t[i] as int;
    }
  }

  /** The string tests' capital case: the capital alphabet becomes the
      small one. */
  lemma ToLowerCapitalAlphabet(upper: string, lower: string)
    requires upper == "ABCDEFGHIJKLMNOPQRSTUVXYZ" && lower == "abcdefghijklmnopqrstuvxyz"
    ensures ToLower(upper) == lower
  {
    ToLowerCapitals(upper, lower);
  }
}
