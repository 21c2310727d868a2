/**
 * The JavaScript string built-ins the application relies on: the `\s` character
 * class, `String.prototype.trim`, and the first-occurrence search that a regular
 * expression without the `g` flag performs in `match` and `replace`.
 */
module Text {
  import opened Wrappers

  /**
   * ECMAScript WhiteSpace and LineTerminator: exactly the characters `\s` matches
   * and `trim` removes (tab, vertical tab, form feed, space, no-break space,
   * byte-order mark, the Zs category, line feed, carriage return, line and
   * paragraph separators).
   */
  predicate IsSpace(c: char) {
    || c == '\t' || c == '\U{B}' || c == '\U{C}' || c == ' ' || c == '\U{A0}' || c == '\U{FEFF}'
    || c == '\U{1680}' || ('\U{2000}' <= c <= '\U{200A}') || c == '\U{202F}' || c == '\U{205F}' || c == '\U{3000}'
    || c == '\n' || c == '\r' || c == '\U{2028}' || c == '\U{2029}'
  }

  /** No character of `s` is whitespace. */
  predicate NoSpace(s: string) {
    forall i :: 0 <= i < |s| ==> !IsSpace(s[i])
  }

  /** Every character of `s` is whitespace (vacuously so for the empty string). */
  predicate AllSpace(s: string) {
    forall i :: 0 <= i < |s| ==> IsSpace(s[i])
  }

  lemma NoSpaceConcat(a: string, b: string)
    requires NoSpace(a) && NoSpace(b)
    ensures NoSpace(a + b)
  {
    forall i | 0 <= i < |a + b| ensures !IsSpace((a + b)[i]) {
      if i < |a| {
        assert (a + b)[i] == a[i];
      } else {
        assert (a + b)[i] == b[i - |a|];
      }
    }
  }

  /** The number of whitespace characters `s` starts with. */
  function LeadingSpaces(s: string, k: nat := 0): (n: nat)
    requires k <= |s|
    ensures k <= n <= |s|
    ensures forall i :: k <= i < n ==> IsSpace(s[i])
    ensures n < |s| ==> !IsSpace(s[n])
    decreases |s| - k
  {
    if k < |s| && IsSpace(s[k]) then LeadingSpaces(s, k + 1) else k
  }

  /** Where the whitespace that `s[lo..k]` ends with begins. */
  function TrailingStart(s: string, lo: nat, k: nat): (n: nat)
    requires lo <= k <= |s|
    ensures lo <= n <= k
    ensures forall i :: n <= i < k ==> IsSpace(s[i])
    ensures n > lo ==> !IsSpace(s[n - 1])
  {
    if k > lo && IsSpace(s[k - 1]) then TrailingStart(s, lo, k - 1) else k
  }

  /** `s.trimStart()`: `s` without its leading whitespace. */
  function TrimStart(s: string): (r: string)
    ensures |r| <= |s| && r == s[|s| - |r|..]
    ensures forall i :: 0 <= i < |s| - |r| ==> IsSpace(s[i])
    ensures r == [] || !IsSpace(r[0])
  {
    s[LeadingSpaces(s)..]
  }

  /** A leading whitespace character makes no difference to `trimStart`. */
  lemma TrimStartSkip(s: string)
    requires |s| > 0 && IsSpace(s[0])
    ensures TrimStart(s) == TrimStart(s[1..])
  {
    var a, b := LeadingSpaces(s), LeadingSpaces(s[1..]);
    forall i | 1 <= i < 1 + b ensures IsSpace(s[i]) {
      assert s[1..][i - 1] == s[i];
    }
    if 1 + b < |s| {
      assert s[1..][b] == s[1 + b];
    }
    assert a == 1 + b;
    assert s[a..] == s[1..][b..];
  }

  /**
   * `s.trim()`: the slice of `s` left after removing whitespace at both ends.
   * Only whitespace is removed, and what is left neither starts nor ends with it.
   */
  function Trim(s: string): (r: string)
    ensures var lead := LeadingSpaces(s);
      && lead + |r| <= |s|
      && r == s[lead..lead + |r|]
      && (forall i :: 0 <= i < lead ==> IsSpace(s[i]))
      && (forall i :: lead + |r| <= i < |s| ==> IsSpace(s[i]))
    ensures r == [] || (!IsSpace(r[0]) && !IsSpace(r[|r| - 1]))
  {
    var a := LeadingSpaces(s);
    s[a..TrailingStart(s, a, |s|)]
  }

  /** `s.trim()` is empty exactly when `s` is whitespace only. */
  lemma TrimEmptyIff(s: string)
    ensures Trim(s) == [] <==> AllSpace(s)
  {
    if Trim(s) != [] {
      assert Trim(s)[0] == s[LeadingSpaces(s)];
    }
  }

  /** Trimming twice is trimming once. */
  lemma TrimIdempotent(s: string)
    ensures Trim(Trim(s)) == Trim(s)
  {
    var t := Trim(s);
    if t == [] {
      assert LeadingSpaces(t) == 0;
    } else {
      assert LeadingSpaces(t) == 0;
      assert TrailingStart(t, 0, |t|) == |t|;
      assert t[0..|t|] == t;
    }
  }

  /** Pattern `p` occurs in `s` starting at index `k`. */
  predicate OccursAt(s: string, p: string, k: nat) {
    k + |p| <= |s| && s[k..k + |p|] == p
  }

  /** `k` is where the leftmost occurrence of `p` in `s` starts. */
  ghost predicate FirstAt(s: string, p: string, k: nat) {
    OccursAt(s, p, k) && forall k': nat :: k' < k ==> !OccursAt(s, p, k')
  }

  /** `p` occurs nowhere in `s`. */
  ghost predicate Absent(s: string, p: string) {
    forall k: nat :: !OccursAt(s, p, k)
  }

  /**
   * The first index at or after `from` where `p` occurs, if any: the search a
   * non-global regular expression makes for a literal pattern.
   */
  function IndexOfFrom(s: string, p: string, from: nat): (r: Option<nat>)
    ensures r.Some? ==>
      && from <= r.value
      && OccursAt(s, p, r.value)
      && forall k: nat :: from <= k < r.value ==> !OccursAt(s, p, k)
    ensures r.None? ==> forall k: nat :: from <= k ==> !OccursAt(s, p, k)
    decreases |s| - from
  {
    if |s| < from + |p| then None
    else if OccursAt(s, p, from) then Some(from)
    else IndexOfFrom(s, p, from + 1)
  }

  /** The search from the start finds the leftmost occurrence, and finds none only when there is none. */
  lemma IndexOfFirst(s: string, p: string)
    ensures IndexOfFrom(s, p, 0).Some? ==> FirstAt(s, p, IndexOfFrom(s, p, 0).value)
    ensures IndexOfFrom(s, p, 0).None? <==> Absent(s, p)
  {
  }

  /**
   * `s.replace(p, rep)` for a literal pattern without the `g` flag: only the
   * leftmost occurrence is replaced; with none, `s` comes back unchanged.
   */
  function ReplaceFirst(s: string, p: string, rep: string): (r: string)
    ensures Absent(s, p) ==> r == s
    ensures forall k: nat :: FirstAt(s, p, k) ==> r == s[..k] + rep + s[k + |p|..]
  {
    IndexOfFirst(s, p);
    match IndexOfFrom(s, p, 0)
    case None => s
    case Some(k) => s[..k] + rep + s[k + |p|..]
  }

  /** Occurrences inside a slice are occurrences in the whole string, shifted by the slice's start. */
  lemma OccursInSlice(s: string, p: string, a: nat, b: nat, k: nat)
    requires a <= b <= |s|
    requires OccursAt(s[a..b], p, k)
    ensures OccursAt(s, p, a + k)
  {
    forall i | 0 <= i < |p| ensures s[a + k + i] == p[i] {
      assert s[a..b][k..k + |p|][i] == p[i];
    }
    assert s[a + k..a + k + |p|] == p;
  }
}
