/**
 The string handling around the game: the normalisation applied to a typed
 answer (lower-casing, then trimming whitespace and newlines) and the split of
 the word-list file into lines. Lower-casing is modelled on ASCII letters only;
 the whitespace set follows Foundation's `whitespacesAndNewlines`.
 */
module Text {
  import opened Wrappers
  import Letters

  predicate IsUpper(c: char)
  {
    'A' <= c <= 'Z'
  }

  function ToLowerChar(c: char): (d: char)
    ensures !IsUpper(d)
    ensures !IsUpper(c) ==> d == c
    ensures IsUpper(c) ==> d as int == c as int + 32
  {
    if IsUpper(c) then (c as int - 'A' as int + 'a' as int) as char else c
  }

  /** Letter-by-letter lower-casing, like `lowercased()` on ASCII text. */
  function Lowercase(s: string): (r: string)
    ensures |r| == |s|
    ensures forall i :: 0 <= i < |s| ==> r[i] == ToLowerChar(s[i])
    ensures forall i :: 0 <= i < |r| ==> !IsUpper(r[i])
  {
    seq(|s|, i requires 0 <= i < |s| => ToLowerChar(s[i]))
  }

  /** Text with no upper-case letter is left as it is by lower-casing. */
  lemma LowercaseOfLower(s: string)
    requires forall i :: 0 <= i < |s| ==> !IsUpper(s[i])
    ensures Lowercase(s) == s
  {
  }

  /** Unicode white space and line separators, the set `whitespacesAndNewlines`. */
  predicate IsWhitespace(c: char)
  {
    if c < '\U{0080}' then c == ' ' || ('\t' <= c <= '\r')
    else IsWideWhitespace(c)
  }

  /** The non-ASCII members of `whitespacesAndNewlines`. */
  predicate IsWideWhitespace(c: char)
  {
    || c == '\U{0085}' || c == '\U{00A0}' || c == '\U{1680}' || ('\U{2000}' <= c <= '\U{200A}')
    || c == '\U{2028}' || c == '\U{2029}' || c == '\U{202F}' || c == '\U{205F}'
    || c == '\U{3000}'
  }

  /** Number of whitespace characters at the front of `s`. */
  function LeadingWhitespace(s: string): (n: nat)
    ensures n <= |s|
    ensures forall k :: 0 <= k < n ==> IsWhitespace(s[k])
    ensures n < |s| ==> !IsWhitespace(s[n])
  {
    if |s| > 0 && IsWhitespace(s[0]) then 1 + LeadingWhitespace(s[1..]) else 0
  }

  /** Length of `s` once its trailing whitespace is dropped. */
  function WithoutTrailingWhitespace(s: string): (n: nat)
    ensures n <= |s|
    ensures forall k :: n <= k < |s| ==> IsWhitespace(s[k])
    ensures n > 0 ==> !IsWhitespace(s[n - 1])
  {
    if |s| > 0 && IsWhitespace(s[|s| - 1]) then WithoutTrailingWhitespace(s[..|s| - 1]) else |s|
  }

  /** Where the text that survives trimming both ends starts and stops. */
  function TrimBounds(s: string): (bounds: (nat, nat))
    ensures bounds.0 <= bounds.1 <= |s|
    ensures forall k :: 0 <= k < bounds.0 ==> IsWhitespace(s[k])
    ensures forall k :: bounds.1 <= k < |s| ==> IsWhitespace(s[k])
    ensures bounds.0 < bounds.1 ==> !IsWhitespace(s[bounds.0]) && !IsWhitespace(s[bounds.1 - 1])
    ensures bounds.0 < |s| ==> bounds.0 < bounds.1
  {
    var a := LeadingWhitespace(s);
    var t := s[a..];
    var n := WithoutTrailingWhitespace(t);
    assert forall k :: a + n <= k < |s| ==> s[k] == t[k - a];
    assert n > 0 ==> s[a + n - 1] == t[n - 1];
    (a, a + n)
  }

  /**
   `trimmingCharacters(in: .whitespacesAndNewlines)`: the slice of `s` left
   after removing whitespace from the front and the back, and nothing else.
   */
  function Trim(s: string): (r: string)
    ensures exists a, b ::
      && 0 <= a <= b <= |s|
      && r == s[a..b]
      && (forall k :: 0 <= k < a ==> IsWhitespace(s[k]))
      && (forall k :: b <= k < |s| ==> IsWhitespace(s[k]))
    ensures |r| > 0 ==> !IsWhitespace(r[0]) && !IsWhitespace(r[|r| - 1])
    ensures (forall i :: 0 <= i < |s| ==> IsWhitespace(s[i])) ==> r == []
    ensures |s| > 0 && !IsWhitespace(s[0]) && !IsWhitespace(s[|s| - 1]) ==> r == s
  {
    var (a, b) := TrimBounds(s);
    assert a < b ==> s[a..b][0] == s[a] && s[a..b][b - a - 1] == s[b - 1];
    s[a..b]
  }

  /** Lower-casing turns no character into whitespace and no whitespace into anything else. */
  lemma LowercaseKeepsWhitespace(s: string)
    ensures forall k :: 0 <= k < |s| ==> (IsWhitespace(Lowercase(s)[k]) <==> IsWhitespace(s[k]))
  {
  }

  /** Trimming looks only at which positions hold whitespace. */
  lemma SameWhitespaceSameBounds(s: string, t: string)
    requires |s| == |t|
    requires forall k :: 0 <= k < |s| ==> (IsWhitespace(s[k]) <==> IsWhitespace(t[k]))
    ensures TrimBounds(s) == TrimBounds(t)
  {
  }

  /** Lower-casing and then trimming keeps exactly the lower-cased slice `s` keeps when trimmed. */
  lemma TrimLowercase(s: string)
    ensures var (a, b) := TrimBounds(s); Trim(Lowercase(s)) == Lowercase(s)[a..b]
  {
    LowercaseKeepsWhitespace(s);
    SameWhitespaceSameBounds(s, Lowercase(s));
  }

  /** The lower-cased slice kept by trimming has no whitespace at either end. */
  lemma LowercaseSliceEnds(s: string, a: nat, b: nat)
    requires a <= b <= |s|
    requires a < b ==> !IsWhitespace(s[a]) && !IsWhitespace(s[b - 1])
    ensures var r := Lowercase(s)[a..b]; |r| > 0 ==> !IsWhitespace(r[0]) && !IsWhitespace(r[|r| - 1])
  {
    if a < b {
      var l := Lowercase(s);
      assert l[a..b][0] == ToLowerChar(s[a]);
      assert l[a..b][b - a - 1] == ToLowerChar(s[b - 1]);
    }
  }

  /** Lower-cased text has no upper-case letter in any of its slices. */
  lemma LowercaseSliceNoUpper(s: string, a: nat, b: nat)
    requires a <= b <= |s|
    ensures forall i :: 0 <= i < b - a ==> !IsUpper(Lowercase(s)[a..b][i])
  {
    var l := Lowercase(s);
    assert forall i :: 0 <= i < b - a ==> l[a..b][i] == l[a + i];
  }

  /** The lower-cased slice kept by trimming is the lower-cased text cut at whitespace-only ends. */
  lemma LowercaseTrimmedSlice(s: string)
    ensures var bounds := TrimBounds(s);
      exists a, b ::
        && 0 <= a <= b <= |s|
        && Lowercase(s)[bounds.0..bounds.1] == Lowercase(s)[a..b]
        && (forall k :: 0 <= k < a ==> IsWhitespace(s[k]))
        && (forall k :: b <= k < |s| ==> IsWhitespace(s[k]))
  {
    var bounds := TrimBounds(s);
    var a, b := bounds.0, bounds.1;
    assert
      && 0 <= a <= b <= |s|
      && Lowercase(s)[bounds.0..bounds.1] == Lowercase(s)[a..b]
      && (forall k :: 0 <= k < a ==> IsWhitespace(s[k]))
      && (forall k :: b <= k < |s| ==> IsWhitespace(s[k]));
  }

  /**
   The normalisation a typed answer goes through before any check: the typed
   text lower-cased, with the whitespace at both ends of it removed.
   */
  function Normalize(s: string): (r: string)
    ensures exists a, b ::
      && 0 <= a <= b <= |s|
      && r == Lowercase(s)[a..b]
      && (forall k :: 0 <= k < a ==> IsWhitespace(s[k]))
      && (forall k :: b <= k < |s| ==> IsWhitespace(s[k]))
    ensures |r| <= |s|
    ensures forall i :: 0 <= i < |r| ==> !IsUpper(r[i])
    ensures |r| > 0 ==> !IsWhitespace(r[0]) && !IsWhitespace(r[|r| - 1])
  {
    var bounds := TrimBounds(s);
    LowercaseSliceEnds(s, bounds.0, bounds.1);
    LowercaseSliceNoUpper(s, bounds.0, bounds.1);
    LowercaseTrimmedSlice(s);
    Lowercase(s)[bounds.0..bounds.1]
  }

  /** Normalising is trimming the lower-cased text, in the order the game does it. */
  lemma NormalizeIsTrimOfLowercase(s: string)
    ensures Normalize(s) == Trim(Lowercase(s))
  {
    TrimLowercase(s);
  }

  /** Normalising twice is the same as normalising once. */
  lemma NormalizeIdempotent(s: string)
    ensures Normalize(Normalize(s)) == Normalize(s)
  {
    var n := Normalize(s);
    LowercaseOfLower(n);
    if |n| > 0 {
      assert Trim(n) == n;
    }
  }

  /** The reset value `" "` of the input field normalises to the empty answer. */
  lemma NormalizeResetValue()
    ensures Normalize(" ") == ""
  {
    LowercaseOfLower(" ");
  }

  /** `components(separatedBy:)` with a one-character separator. */
  function Split(s: string, sep: char): (parts: seq<string>)
    ensures |parts| >= 1
    ensures forall i :: 0 <= i < |parts| ==> sep !in parts[i]
    decreases |s|
  {
    match Letters.IndexOf(s, sep)
    case None => [s]
    case Some(i) => [s[..i]] + Split(s[i + 1..], sep)
  }

  /** Glues the parts back together with `sep` between neighbours. */
  function Join(parts: seq<string>, sep: char): string
  {
    if |parts| == 0 then ""
    else if |parts| == 1 then parts[0]
    else parts[0] + [sep] + Join(parts[1..], sep)
  }

  /** Splitting loses nothing: joining the parts gives back the text. */
  lemma {:induction false} JoinSplit(s: string, sep: char)
    ensures Join(Split(s, sep), sep) == s
    decreases |s|
  {
    match Letters.IndexOf(s, sep)
    case None =>
    case Some(i) =>
      var rest := Split(s[i + 1..], sep);
      var parts := Split(s, sep);
      assert parts == [s[..i]] + rest;
      assert parts[0] == s[..i] && parts[1..] == rest;
      JoinSplit(s[i + 1..], sep);
      assert Join(parts, sep) == s[..i] + [sep] + s[i + 1..];
      assert s == s[..i] + [sep] + s[i + 1..];
  }

  /** Joining separator-free parts and splitting again gives back the parts. */
  lemma {:induction false} SplitJoin(parts: seq<string>, sep: char)
    requires |parts| >= 1
    requires forall i :: 0 <= i < |parts| ==> sep !in parts[i]
    ensures Split(Join(parts, sep), sep) == parts
    decreases |parts|
  {
    if |parts| > 1 {
      var s := Join(parts, sep);
      assert s == parts[0] + [sep] + Join(parts[1..], sep);
      IndexAfterPrefix(parts[0], sep, Join(parts[1..], sep));
      assert s[..|parts[0]|] == parts[0];
      assert s[|parts[0]| + 1..] == Join(parts[1..], sep);
      SplitJoin(parts[1..], sep);
    }
  }

  /** In `p + [sep] + q` with `sep` absent from `p`, the first `sep` sits right after `p`. */
  lemma IndexAfterPrefix(p: string, sep: char, q: string)
    requires sep !in p
    ensures Letters.IndexOf(p + [sep] + q, sep) == Some(|p|)
  {
    var s := p + [sep] + q;
    assert s[|p|] == sep;
    assert s[..|p|] == p;
  }

  /** Lower-case text without leading or trailing whitespace is already normal. */
  lemma NormalizeOfNormal(s: string)
    requires forall i :: 0 <= i < |s| ==> !IsUpper(s[i])
    requires |s| > 0 && !IsWhitespace(s[0]) && !IsWhitespace(s[|s| - 1])
    ensures Normalize(s) == s
  {
    LowercaseOfLower(s);
  }

  /** A capitalised answer typed with a trailing space: "Silk " normalises to "silk". */
  lemma NormalizeExample()
    ensures Normalize("Silk ") == "silk"
  {
    var s := "Silk ";
    assert LeadingWhitespace(s) == 0 by { assert !IsWhitespace(s[0]); }
    assert s[0..] == s && s[..4] == "Silk";
    assert WithoutTrailingWhitespace(s) == WithoutTrailingWhitespace("Silk") by { assert IsWhitespace(s[4]); }
    assert WithoutTrailingWhitespace("Silk") == 4 by { assert !IsWhitespace('k'); }
    var l := Lowercase(s);
    assert l[0..4] == "silk" by {
      assert l[0] == ToLowerChar('S') == 's';
    }
  }
}
