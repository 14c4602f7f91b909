/**
 * The few string operations the tracker takes from Python's `str`:
 * `strip`, `lower`, substring test `in`, the ordering `sorted` uses on
 * names, and the month names `strptime('%B')` accepts.
 */
module Text {

  import opened Results

  /** The characters `str.isspace` accepts, so the ones `str.strip()` removes. */
  predicate IsSpace(c: char)
  {
    || ('\U{0009}' <= c <= '\U{000D}')
    || ('\U{001C}' <= c <= '\U{0020}')
    || c == '\U{0085}' || c == '\U{00A0}' || c == '\U{1680}'
    || ('\U{2000}' <= c <= '\U{200A}')
    || c == '\U{2028}' || c == '\U{2029}' || c == '\U{202F}' || c == '\U{205F}' || c == '\U{3000}'
  }

  function TrimLeft(s: string): (r: string)
    ensures |r| <= |s| && r == s[|s| - |r|..]
    ensures r == [] || !IsSpace(r[0])
    ensures forall i | 0 <= i < |s| - |r| :: IsSpace(s[i])
  {
    if |s| > 0 && IsSpace(s[0]) then TrimLeft(s[1..]) else s
  }

  function TrimRight(s: string): (r: string)
    ensures |r| <= |s| && r == s[..|r|]
    ensures r == [] || !IsSpace(r[|r| - 1])
    ensures forall i | |r| <= i < |s| :: IsSpace(s[i])
  {
    if |s| > 0 && IsSpace(s[|s| - 1]) then TrimRight(s[..|s| - 1]) else s
  }

  lemma TrimRightEmpty(s: string)
    ensures TrimRight(s) == [] ==> s == [] || IsSpace(s[0])
  {
  }

  /** `r` occurs in `s` starting at position `i`. */
  predicate OccursAt(s: string, r: string, i: int)
  {
    0 <= i <= |s| - |r| && s[i..i + |r|] == r
  }

  /**
   * `r` occurs in `s` at position `i` and everything of `s` before and after
   * that occurrence is white space.
   */
  predicate StrippedAt(s: string, r: string, i: int)
  {
    && OccursAt(s, r, i)
    && (forall j | 0 <= j < i :: IsSpace(s[j]))
    && (forall j | i + |r| <= j < |s| :: IsSpace(s[j]))
  }

  /** A prefix of a suffix of `s` occurs in `s` where the suffix starts. */
  lemma PrefixOfSuffix(s: string, left: string, r: string, k: nat)
    requires k <= |s| && left == s[k..] && |r| <= |left| && r == left[..|r|]
    ensures OccursAt(s, r, k)
  {
    assert s[k..k + |r|] == r;
  }

  /** What follows that prefix in the suffix is what follows its occurrence in `s`. */
  lemma TailOfSuffix(s: string, left: string, r: string, k: nat)
    requires k <= |s| && left == s[k..] && |r| <= |left|
    requires forall j | |r| <= j < |left| :: IsSpace(left[j])
    ensures forall j | k + |r| <= j < |s| :: IsSpace(s[j])
  {
    forall j | k + |r| <= j < |s|
      ensures IsSpace(s[j])
    {
      assert s[j] == left[j - k];
    }
  }

  /** Trimming both ends of `s` leaves a slice of it with only white space around it. */
  lemma TrimBothSlice(s: string)
    ensures StrippedAt(s, TrimRight(TrimLeft(s)), |s| - |TrimLeft(s)|)
  {
    var left := TrimLeft(s);
    PrefixOfSuffix(s, left, TrimRight(left), |s| - |left|);
    TailOfSuffix(s, left, TrimRight(left), |s| - |left|);
  }

  /** A non-empty result of trimming both ends starts and ends with a non-space. */
  lemma TrimBothEnds(s: string)
    ensures var r := TrimRight(TrimLeft(s)); r != [] ==> !IsSpace(r[0]) && !IsSpace(r[|r| - 1])
  {
    var left := TrimLeft(s);
    var r := TrimRight(left);
    if r != [] {
      assert r == left[..|r|];
      assert !IsSpace(left[0]);
      assert r[0] == left[0];
    }
  }

  /** Trimming both ends of `s` leaves nothing exactly when `s` is all white space. */
  lemma TrimBothEmpty(s: string)
    ensures TrimRight(TrimLeft(s)) == [] <==> forall i | 0 <= i < |s| :: IsSpace(s[i])
  {
    var left := TrimLeft(s);
    if TrimRight(left) == [] {
      TrimRightEmpty(left);
      assert left == [];
    } else {
      assert !IsSpace(s[|s| - |left|]);
    }
  }

  /**
   * `str.strip()`: the longest slice of `s` that neither starts nor ends with
   * white space; empty exactly when `s` is all white space.
   */
  function Strip(s: string): (r: string)
    ensures exists i :: StrippedAt(s, r, i)
    ensures r != [] ==> !IsSpace(r[0]) && !IsSpace(r[|r| - 1])
    ensures r == [] <==> forall i | 0 <= i < |s| :: IsSpace(s[i])
  {
    TrimBothSlice(s);
    TrimBothEnds(s);
    TrimBothEmpty(s);
    TrimRight(TrimLeft(s))
  }

  /** The upper-case letters `str.lower()` changes, in the ranges modelled here. */
  predicate IsUpper(c: char)
  {
    || ('A' <= c <= 'Z')
    || ('\U{00C0}' <= c <= '\U{00DE}' && c != '\U{00D7}')
    || ('\U{0400}' <= c <= '\U{042F}')
  }

  /** The upper-case partner of a lower-case letter of those ranges; any other character is kept. */
  function UpperChar(c: char): char
  {
    if 'a' <= c <= 'z' then (c as int - 32) as char
    else if '\U{00E0}' <= c <= '\U{00FE}' && c != '\U{00F7}' then (c as int - 32) as char
    else if '\U{0430}' <= c <= '\U{044F}' then (c as int - 32) as char
    else if '\U{0450}' <= c <= '\U{045F}' then (c as int - 80) as char
    else c
  }

  /**
   * `str.lower()` on one character, for ASCII, Latin-1 and the basic Cyrillic
   * block: an upper-case letter becomes the lower-case letter whose partner it
   * is, and every other character is kept.
   */
  function LowerChar(c: char): (r: char)
    ensures !IsUpper(r)
    ensures !IsUpper(c) ==> r == c
    ensures IsUpper(c) ==> r != c && UpperChar(r) == c
  {
    if 'A' <= c <= 'Z' then (c as int + 32) as char
    else if '\U{00C0}' <= c <= '\U{00DE}' && c != '\U{00D7}' then (c as int + 32) as char
    else if '\U{0410}' <= c <= '\U{042F}' then (c as int + 32) as char
    else if '\U{0400}' <= c <= '\U{040F}' then (c as int + 80) as char
    else c
  }

  /**
   * `str.lower()`: no upper-case letter is left, each one is replaced by its
   * lower-case partner, and every other character is kept.
   */
  function Lower(s: string): (r: string)
    ensures |r| == |s|
    ensures forall i | 0 <= i < |s| :: r[i] == LowerChar(s[i])
    ensures forall i | 0 <= i < |r| :: !IsUpper(r[i])
    ensures forall i | 0 <= i < |s| && !IsUpper(s[i]) :: r[i] == s[i]
    ensures forall i | 0 <= i < |s| && IsUpper(s[i]) :: r[i] != s[i] && UpperChar(r[i]) == s[i]
  {
    seq(|s|, i requires 0 <= i < |s| => LowerChar(s[i]))
  }

  /** Lower-casing twice is lower-casing once. */
  lemma LowerIdempotent(s: string)
    ensures Lower(Lower(s)) == Lower(s)
  {
  }

  /**
   * Python's `needle in hay` on strings: the empty string is in every string,
   * nothing longer than `hay` is in it, and of the strings as long as `hay`
   * only `hay` itself.
   */
  predicate Contains(hay: string, needle: string)
    ensures needle == [] ==> Contains(hay, needle)
    ensures Contains(hay, needle) ==> |needle| <= |hay|
    ensures |needle| == |hay| ==> (Contains(hay, needle) <==> needle == hay)
  {
    assert needle == [] || needle == hay ==> OccursAt(hay, needle, 0);
    exists i | 0 <= i <= |hay| - |needle| :: OccursAt(hay, needle, i)
  }

  /**
   * Python's `<` on strings: lexicographic by code point; a proper prefix sorts
   * before every string it starts.
   */
  predicate LexLess(a: string, b: string)
    ensures |a| < |b| && a == b[..|a|] ==> LexLess(a, b)
  {
    if |a| == 0 then |b| > 0
    else if |b| == 0 then false
    else if a[0] != b[0] then a[0] < b[0]
    else LexLess(a[1..], b[1..])
  }

  /**
   * `a` and `b` agree on their first `k` characters, and position `k` is where
   * `a` ends while `b` goes on, or where `a` has the smaller character.
   */
  predicate LessAt(a: string, b: string, k: nat)
  {
    && k <= |a| && k <= |b| && a[..k] == b[..k]
    && ((k == |a| && k < |b|) || (k < |a| && k < |b| && a[k] < b[k]))
  }

  /** `LexLess` is the order decided at the first position where the strings differ. */
  lemma {:induction false} LexLessFirstDifference(a: string, b: string)
    ensures LexLess(a, b) <==> exists k: nat :: LessAt(a, b, k)
  {
    if |a| == 0 {
      if |b| > 0 {
        assert LessAt(a, b, 0);
      }
    } else if |b| == 0 {
    } else if a[0] != b[0] {
      if a[0] < b[0] {
        assert LessAt(a, b, 0);
      }
      forall k: nat | LessAt(a, b, k)
        ensures a[0] < b[0]
      {
        if k > 0 {
          assert a[..k][0] == b[..k][0];
        }
      }
    } else {
      LexLessFirstDifference(a[1..], b[1..]);
      if LexLess(a, b) {
        var k: nat :| LessAt(a[1..], b[1..], k);
        assert a[..k + 1] == [a[0]] + a[1..][..k];
        assert b[..k + 1] == [b[0]] + b[1..][..k];
        assert LessAt(a, b, k + 1);
      }
      forall k: nat | LessAt(a, b, k)
        ensures LexLess(a, b)
      {
        assert k > 0;
        assert a[1..][..k - 1] == a[..k][1..];
        assert b[1..][..k - 1] == b[..k][1..];
        assert LessAt(a[1..], b[1..], k - 1);
      }
    }
  }

  lemma {:induction false} LexIrreflexive(a: string)
    ensures !LexLess(a, a)
  {
    if |a| > 0 {
      LexIrreflexive(a[1..]);
    }
  }

  lemma {:induction false} LexTransitive(a: string, b: string, c: string)
    requires LexLess(a, b) && LexLess(b, c)
    ensures LexLess(a, c)
  {
    if |a| > 0 && a[0] == b[0] && b[0] == c[0] {
      LexTransitive(a[1..], b[1..], c[1..]);
    }
  }

  lemma {:induction false} LexTotal(a: string, b: string)
    requires a != b
    ensures LexLess(a, b) || LexLess(b, a)
  {
    if |a| > 0 && |b| > 0 && a[0] == b[0] {
      assert a == [a[0]] + a[1..] && b == [b[0]] + b[1..];
      LexTotal(a[1..], b[1..]);
    }
  }

  /** The month names `strptime` matches for `%B` in the C locale. */
  const MonthNames: seq<string> := ["January", "February", "March", "April", "May", "June",
                                    "July", "August", "September", "October", "November", "December"]

  function MonthFrom(m: string, k: nat): (r: Option<nat>)
    requires k <= |MonthNames|
    ensures r.Some? ==> k < r.value <= |MonthNames| && Lower(m) == Lower(MonthNames[r.value - 1])
    ensures r.None? ==> forall j | k <= j < |MonthNames| :: Lower(m) != Lower(MonthNames[j])
    decreases |MonthNames| - k
  {
    if k == |MonthNames| then None
    else if Lower(m) == Lower(MonthNames[k]) then Some(k + 1)
    else MonthFrom(m, k + 1)
  }

  /**
   * The calendar number (1 to 12) of a month name, matched without regard to
   * case as `strptime(m, '%B')` does; `None` where `strptime` raises.
   */
  function MonthNumber(m: string): (r: Option<nat>)
    ensures r.Some? ==> 1 <= r.value <= 12 && Lower(m) == Lower(MonthNames[r.value - 1])
    ensures r.None? <==> forall j | 0 <= j < 12 :: Lower(m) != Lower(MonthNames[j])
  {
    MonthFrom(m, 0)
  }
}
