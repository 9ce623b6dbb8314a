/** Shared vocabulary of the forum model: PHP byte strings and their
    `trim`/`empty` semantics, optional values, results, and injected
    storage faults. */
module Common {

  /** PHP strings are byte strings: `strlen` counts bytes. */
  newtype byte = b: int | 0 <= b < 256
  type Bytes = seq<byte>

  type UserId = int

  datatype Option<+T> = None | Some(value: T)

  datatype Result<+T, +E> = Ok(value: T) | Err(error: E)

  /** Which database statement of a request throws a PDOException, if any.
      Each handler numbers its statements from 1. */
  datatype Fault = NoFault | FailAt(step: nat)

  /** The bytes of a literal written in the source (every literal used is ASCII). */
  function Lit(s: string): (r: Bytes)
    ensures |r| == |s|
  {
    seq(|s|, i requires 0 <= i < |s| => (s[i] as int % 256) as byte)
  }

  /** The bytes PHP's `trim` removes by default: " \t\n\r\0\x0B". */
  predicate PhpSpace(b: byte) {
    b == 32 || b == 9 || b == 10 || b == 13 || b == 0 || b == 11
  }

  /** PHP `empty()` on a string: the empty string and "0" are empty. */
  predicate PhpEmpty(s: Bytes) {
    s == [] || s == [48]
  }

  /** The first index at or after i that does not hold a trimmed byte. */
  function SkipSpaces(s: Bytes, i: nat): (j: nat)
    requires i <= |s|
    ensures i <= j <= |s|
    ensures j < |s| ==> !PhpSpace(s[j])
    decreases |s| - i
  {
    if i < |s| && PhpSpace(s[i]) then SkipSpaces(s, i + 1) else i
  }

  /** The end of s[lo..j] once its trailing trimmed bytes are dropped. */
  function DropSpaces(s: Bytes, lo: nat, j: nat): (e: nat)
    requires lo <= j <= |s|
    ensures lo <= e <= j
    ensures lo < e ==> !PhpSpace(s[e - 1])
    decreases j - lo
  {
    if lo < j && PhpSpace(s[j - 1]) then DropSpaces(s, lo, j - 1) else j
  }

  /** PHP `trim($s)`: the bytes between the leading and the trailing run of
      trimmed bytes. */
  function PhpTrim(s: Bytes): (r: Bytes)
    ensures |r| <= |s|
    ensures r != [] ==> !PhpSpace(r[0]) && !PhpSpace(r[|r| - 1])
  {
    var start := SkipSpaces(s, 0);
    s[start..DropSpaces(s, start, |s|)]
  }

  /** `trim` leaves a string alone exactly when neither edge is a trimmed byte. */
  lemma PhpTrimUnchanged(s: Bytes)
    ensures PhpTrim(s) == s <==> s == [] || (!PhpSpace(s[0]) && !PhpSpace(s[|s| - 1]))
  {
    if s != [] && !PhpSpace(s[0]) && !PhpSpace(s[|s| - 1]) {
      assert SkipSpaces(s, 0) == 0;
      assert DropSpaces(s, 0, |s|) == |s|;
    }
  }

  lemma {:induction false} SkipSpacesSkipsSpaces(s: Bytes, i: nat)
    requires i <= |s|
    ensures forall k :: i <= k < SkipSpaces(s, i) ==> PhpSpace(s[k])
    decreases |s| - i
  {
    if i < |s| && PhpSpace(s[i]) {
      SkipSpacesSkipsSpaces(s, i + 1);
    }
  }

  lemma {:induction false} DropSpacesDropsSpaces(s: Bytes, lo: nat, j: nat)
    requires lo <= j <= |s|
    ensures forall k :: DropSpaces(s, lo, j) <= k < j ==> PhpSpace(s[k])
    decreases j - lo
  {
    if lo < j && PhpSpace(s[j - 1]) {
      DropSpacesDropsSpaces(s, lo, j - 1);
    }
  }

  /** `trim` removes trimmed bytes only, and only from the two ends: the result
      is the infix s[start..end], everything before start and from end on is a
      trimmed byte, and the result starts and ends with an untrimmed one. */
  lemma PhpTrimRemovesOnlySpaces(s: Bytes)
    ensures var start := SkipSpaces(s, 0);
            var end := DropSpaces(s, start, |s|);
            && PhpTrim(s) == s[start..end]
            && (forall k :: 0 <= k < start ==> PhpSpace(s[k]))
            && (forall k :: end <= k < |s| ==> PhpSpace(s[k]))
  {
    SkipSpacesSkipsSpaces(s, 0);
    DropSpacesDropsSpaces(s, SkipSpaces(s, 0), |s|);
  }

  /** Trimming twice is trimming once. */
  lemma PhpTrimIdempotent(s: Bytes)
    ensures PhpTrim(PhpTrim(s)) == PhpTrim(s)
  {
    PhpTrimUnchanged(PhpTrim(s));
  }

  /** `needle` occurs as a contiguous block of `hay` (SQL LIKE '%needle%' without
      wildcards in needle, JavaScript `hay.includes(needle)`). */
  function Contains<T(==)>(hay: seq<T>, needle: seq<T>): (c: bool)
    ensures needle == [] ==> c
    ensures c ==> |needle| <= |hay|
    ensures |needle| <= |hay| && hay[..|needle|] == needle ==> c
    decreases |hay|
  {
    if |needle| > |hay| then false
    else hay[..|needle|] == needle || Contains(hay[1..], needle)
  }
}
