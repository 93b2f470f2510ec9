/** The URL slug of an event: the title lower-cased, every run of characters
    outside [a-z0-9] collapsed to one hyphen, one leading and one trailing
    hyphen stripped, then a hyphen and the decimal creation timestamp
    appended. Only ASCII case folding is modelled. */
module Slug {
  import opened Wrappers

  /** The characters the slug keeps: [a-z0-9]. */
  predicate IsSlugAlnum(c: char) {
    ('a' <= c <= 'z') || ('0' <= c <= '9')
  }

  predicate IsDigit(c: char) {
    '0' <= c <= '9'
  }

  /** Every character is in [a-z0-9-]. */
  predicate SlugChars(s: string) {
    forall i :: 0 <= i < |s| ==> IsSlugAlnum(s[i]) || s[i] == '-'
  }

  /** No two adjacent hyphens. */
  predicate NoDoubleHyphen(s: string) {
    forall i :: 0 <= i < |s| - 1 ==> s[i] != '-' || s[i + 1] != '-'
  }

  /** Neither the first nor the last character is a hyphen. */
  predicate NoEdgeHyphen(s: string) {
    |s| == 0 || (s[0] != '-' && s[|s| - 1] != '-')
  }

  /** The shape every base slug has. */
  predicate WellFormedBase(s: string) {
    SlugChars(s) && NoDoubleHyphen(s) && NoEdgeHyphen(s)
  }

  // ---------------------------------------------------------------------
  // The three passes of the transformation
  // ---------------------------------------------------------------------

  /** ASCII `toLowerCase` of one character. */
  function LowerChar(c: char): char {
    if 'A' <= c <= 'Z' then (c as int + 32) as char else c
  }

  /** ASCII `toLowerCase`: upper-case letters become their lower-case
      counterparts, every other character is kept. */
  function Lower(s: string): (r: string)
    ensures |r| == |s|
    ensures forall i :: 0 <= i < |s| ==> r[i] == LowerChar(s[i])
    ensures forall i :: 0 <= i < |s| ==> ('A' <= s[i] <= 'Z' ==> 'a' <= r[i] <= 'z' && r[i] as int - 'a' as int == s[i] as int - 'A' as int)
    ensures forall i :: 0 <= i < |s| ==> (!('A' <= s[i] <= 'Z') ==> r[i] == s[i])
  {
    if |s| == 0 then [] else [LowerChar(s[0])] + Lower(s[1..])
  }

  /** The letters and digits of `s` ([a-z0-9] only), in order. */
  function Alnums(s: string): string {
    if |s| == 0 then [] else (if IsSlugAlnum(s[0]) then [s[0]] else []) + Alnums(s[1..])
  }

  lemma {:induction false} AlnumsConcat(a: string, b: string)
    ensures Alnums(a + b) == Alnums(a) + Alnums(b)
    decreases |a|
  {
    if |a| == 0 {
      assert a + b == b;
    } else {
      var ab := a + b;
      var head := if IsSlugAlnum(a[0]) then [a[0]] else [];
      assert ab[0] == a[0] && ab[1..] == a[1..] + b;
      assert Alnums(ab) == head + Alnums(a[1..] + b);
      AlnumsConcat(a[1..], b);
      assert Alnums(a) == head + Alnums(a[1..]);
      assert head + (Alnums(a[1..]) + Alnums(b)) == (head + Alnums(a[1..])) + Alnums(b);
    }
  }

  /** Putting a letter or digit in front of a collapsed string keeps it
      collapsed. */
  lemma ConsAlnum(c: char, rest: string)
    requires IsSlugAlnum(c) && SlugChars(rest) && NoDoubleHyphen(rest)
    ensures SlugChars([c] + rest) && NoDoubleHyphen([c] + rest)
    ensures Alnums([c] + rest) == [c] + Alnums(rest)
  {
    var r := [c] + rest;
    assert r[1..] == rest;
    forall i | 1 <= i < |r| ensures r[i] == rest[i - 1] {
    }
  }

  /** Putting a hyphen in front of a collapsed string that does not start
      with one keeps it collapsed. */
  lemma ConsHyphen(rest: string)
    requires SlugChars(rest) && NoDoubleHyphen(rest) && (|rest| == 0 || rest[0] != '-')
    ensures SlugChars("-" + rest) && NoDoubleHyphen("-" + rest)
    ensures Alnums("-" + rest) == Alnums(rest)
  {
    var r := "-" + rest;
    assert r[1..] == rest;
    forall i | 1 <= i < |r| ensures r[i] == rest[i - 1] {
    }
  }

  /** Drops the maximal prefix of characters outside [a-z0-9]. */
  function SkipRun(s: string): (r: string)
    ensures |r| <= |s| && r == s[|s| - |r|..]
    ensures |r| == 0 || IsSlugAlnum(r[0])
  {
    if |s| == 0 || IsSlugAlnum(s[0]) then s else SkipRun(s[1..])
  }

  /** Skipping a run never reaches a final letter or digit. */
  lemma {:induction false} SkipRunKeepsLast(s: string)
    requires |s| > 0 && IsSlugAlnum(s[|s| - 1])
    ensures |SkipRun(s)| > 0 && SkipRun(s)[|SkipRun(s)| - 1] == s[|s| - 1]
    decreases |s|
  {
    if !IsSlugAlnum(s[0]) {
      SkipRunKeepsLast(s[1..]);
    }
  }

  /** Skipping a run of other characters drops no letter or digit. */
  lemma {:induction false} SkipRunAlnums(s: string)
    ensures Alnums(SkipRun(s)) == Alnums(s)
    decreases |s|
  {
    if |s| > 0 && !IsSlugAlnum(s[0]) {
      SkipRunAlnums(s[1..]);
    }
  }

  /** `replace(/[^a-z0-9]+/g, "-")`: each maximal run of characters outside
      [a-z0-9] becomes a single hyphen; every other character is kept. */
  function Collapse(s: string): (r: string)
    ensures SlugChars(r) && NoDoubleHyphen(r)
    ensures Alnums(r) == Alnums(s)
    ensures |r| <= |s|
    ensures |s| > 0 && IsSlugAlnum(s[0]) ==> |r| > 0 && r[0] == s[0]
    ensures |s| > 0 && !IsSlugAlnum(s[0]) ==> |r| > 0 && r[0] == '-'
    decreases |s|
  {
    if |s| == 0 then []
    else if IsSlugAlnum(s[0]) then
      var rest := Collapse(s[1..]);
      ConsAlnum(s[0], rest);
      [s[0]] + rest
    else
      var tail := SkipRun(s[1..]);
      var rest := Collapse(tail);
      SkipRunAlnums(s[1..]);
      ConsHyphen(rest);
      "-" + rest
  }

  /** `replace(/(^-|-$)/g, "")`: removes one hyphen at the start and one at
      the end (the same hyphen when it is the whole string). */
  function TrimHyphens(s: string): (r: string)
    ensures var pre := if |s| > 0 && s[0] == '-' then "-" else "";
            var post := if |s| > |pre| && s[|s| - 1] == '-' then "-" else "";
            s == pre + r + post
    ensures SlugChars(s) && NoDoubleHyphen(s) ==> WellFormedBase(r)
  {
    var a := if |s| > 0 && s[0] == '-' then s[1..] else s;
    if |a| > 0 && a[|a| - 1] == '-' then a[..|a| - 1] else a
  }

  /** Trimming edge hyphens drops no letter or digit. */
  lemma TrimKeepsAlnums(s: string)
    ensures Alnums(TrimHyphens(s)) == Alnums(s)
  {
    var r := TrimHyphens(s);
    var pre := if |s| > 0 && s[0] == '-' then "-" else "";
    var post := if |s| > |pre| && s[|s| - 1] == '-' then "-" else "";
    assert s == pre + r + post;
    AlnumsConcat(pre + r, post);
    AlnumsConcat(pre, r);
  }

  /** The base slug derived from an event title: only [a-z0-9-], no `--`,
      no hyphen at either end, and the title's lower-cased letters and
      digits all kept, in order. */
  function Base(title: string): (b: string)
    ensures WellFormedBase(b)
    ensures Alnums(b) == Alnums(Lower(title))
  {
    var c := Collapse(Lower(title));
    TrimKeepsAlnums(c);
    TrimHyphens(c)
  }

  // ---------------------------------------------------------------------
  // Decimal rendering of the timestamp suffix and its inverse
  // ---------------------------------------------------------------------

  function DigitChar(d: nat): (c: char)
    requires d < 10
    ensures IsDigit(c)
  {
    ('0' as int + d) as char
  }

  function DigitValue(c: char): nat {
    if IsDigit(c) then c as int - '0' as int else 0
  }

  /** The decimal rendering of a non-negative integer, as a template literal
      renders `Date.now()`. */
  function Decimal(n: nat): (r: string)
    ensures |r| > 0
    ensures forall i :: 0 <= i < |r| ==> IsDigit(r[i])
    ensures |r| > 1 ==> r[0] != '0'
  {
    if n < 10 then [DigitChar(n)] else Decimal(n / 10) + [DigitChar(n % 10)]
  }

  /** Reads a string of decimal digits back as a number. */
  function DecimalValue(d: string): nat {
    if |d| == 0 then 0 else DecimalValue(d[..|d| - 1]) * 10 + DigitValue(d[|d| - 1])
  }

  /** The stored slug: `${base}-${timestamp}`. */
  function SlugFor(title: string, timestamp: nat): string {
    Base(title) + "-" + Decimal(timestamp)
  }

  /** Position of the last hyphen, if any. */
  function LastHyphen(s: string): (r: Option<nat>)
    ensures r.Some? ==> r.value < |s| && s[r.value] == '-'
    ensures r.Some? ==> forall j :: r.value < j < |s| ==> s[j] != '-'
    ensures r.None? ==> forall j :: 0 <= j < |s| ==> s[j] != '-'
  {
    if |s| == 0 then None
    else if s[|s| - 1] == '-' then Some(|s| - 1)
    else LastHyphen(s[..|s| - 1])
  }

  /** Splits a stored slug at its last hyphen into the base and the
      timestamp. */
  function SplitSlug(s: string): Option<(string, nat)> {
    match LastHyphen(s)
    case None => None
    case Some(i) => Some((s[..i], DecimalValue(s[i + 1..])))
  }

  // ---------------------------------------------------------------------
  // Properties
  // ---------------------------------------------------------------------

  lemma {:induction false} LowerOfSlugChars(s: string)
    requires SlugChars(s)
    ensures Lower(s) == s
  {
    if |s| > 0 {
      LowerOfSlugChars(s[1..]);
    }
  }

  lemma TailCollapsed(s: string)
    requires |s| > 0 && SlugChars(s) && NoDoubleHyphen(s)
    ensures SlugChars(s[1..]) && NoDoubleHyphen(s[1..])
    ensures s[0] == '-' && |s| > 1 ==> IsSlugAlnum(s[1])
  {
    var t := s[1..];
    forall i | 0 <= i < |t| ensures IsSlugAlnum(t[i]) || t[i] == '-' {
      assert t[i] == s[i + 1];
    }
    forall i | 0 <= i < |t| - 1 ensures t[i] != '-' || t[i + 1] != '-' {
      assert t[i] == s[i + 1] && t[i + 1] == s[i + 2];
    }
  }

  lemma {:induction false} CollapseOfCollapsed(s: string)
    requires SlugChars(s) && NoDoubleHyphen(s)
    ensures Collapse(s) == s
    decreases |s|
  {
    if |s| > 0 {
      var t := s[1..];
      TailCollapsed(s);
      CollapseOfCollapsed(t);
      if !IsSlugAlnum(s[0]) {
        assert SkipRun(t) == t;
      }
      assert s == [s[0]] + t;
    }
  }

  /** Applying the transformation to its own output changes nothing. */
  lemma BaseIdempotent(title: string)
    ensures Base(Base(title)) == Base(title)
  {
    var b := Base(title);
    LowerOfSlugChars(b);
    CollapseOfCollapsed(b);
    TrimOfWellFormed(b);
  }

  lemma TrimOfWellFormed(b: string)
    requires WellFormedBase(b)
    ensures TrimHyphens(b) == b
  {
  }

  /** `s` holds no letter or digit. */
  predicate NoAlnum(s: string) {
    forall i :: 0 <= i < |s| ==> !IsSlugAlnum(s[i])
  }

  lemma LowerConcat(a: string, b: string)
    ensures Lower(a + b) == Lower(a) + Lower(b)
  {
  }

  /** Skipping a run stops at the first letter or digit, so text after a
      string that ends with one is untouched. */
  lemma {:induction false} SkipRunConcat(a: string, b: string)
    requires |a| > 0 && IsSlugAlnum(a[|a| - 1])
    ensures SkipRun(a + b) == SkipRun(a) + b
    decreases |a|
  {
    if !IsSlugAlnum(a[0]) {
      assert (a + b)[1..] == a[1..] + b;
      SkipRunConcat(a[1..], b);
    }
  }

  /** A run with no letter or digit is skipped entirely. */
  lemma {:induction false} SkipRunNoAlnum(w: string, b: string)
    requires NoAlnum(w) && (|b| == 0 || IsSlugAlnum(b[0]))
    ensures SkipRun(w + b) == b
    decreases |w|
  {
    if |w| == 0 {
      assert w + b == b;
    } else {
      assert (w + b)[1..] == w[1..] + b;
      SkipRunNoAlnum(w[1..], b);
    }
  }

  /** A run of other characters never spans a letter or digit: collapsing
      distributes over a split just after one. */
  lemma {:induction false} CollapseConcat(a: string, b: string)
    requires |a| == 0 || IsSlugAlnum(a[|a| - 1])
    ensures Collapse(a + b) == Collapse(a) + Collapse(b)
    decreases |a|
  {
    if |a| == 0 {
      assert a + b == b;
    } else if IsSlugAlnum(a[0]) {
      CollapseConcat(a[1..], b);
      CollapseConcatLetter(a, b);
    } else {
      var t := SkipRun(a[1..]);
      SkipRunConcat(a[1..], b);
      SkipRunKeepsLast(a[1..]);
      CollapseConcat(t, b);
      CollapseConcatRun(a, b);
    }
  }

  /** The step of `CollapseConcat` for a leading letter or digit. */
  lemma CollapseConcatLetter(a: string, b: string)
    requires |a| > 0 && IsSlugAlnum(a[0])
    requires Collapse(a[1..] + b) == Collapse(a[1..]) + Collapse(b)
    ensures Collapse(a + b) == Collapse(a) + Collapse(b)
  {
    var ab := a + b;
    HeadTailOfConcat(a, b);
    assert Collapse(ab) == [a[0]] + Collapse(a[1..] + b);
    assert Collapse(a) == [a[0]] + Collapse(a[1..]);
    JoinAfterHead(Collapse(ab), Collapse(a), [a[0]], Collapse(a[1..]), Collapse(b));
  }

  lemma HeadTailOfConcat(a: string, b: string)
    requires |a| > 0
    ensures (a + b)[0] == a[0] && (a + b)[1..] == a[1..] + b
  {
  }

  /** `x == h + (m + z)` and `y == h + m` give `x == y + z`. */
  lemma JoinAfterHead(x: string, y: string, h: string, m: string, z: string)
    requires x == h + (m + z) && y == h + m
    ensures x == y + z
  {
  }

  /** The step of `CollapseConcat` for a leading run. */
  lemma CollapseConcatRun(a: string, b: string)
    requires |a| > 0 && !IsSlugAlnum(a[0])
    requires SkipRun(a[1..] + b) == SkipRun(a[1..]) + b
    requires Collapse(SkipRun(a[1..]) + b) == Collapse(SkipRun(a[1..])) + Collapse(b)
    ensures Collapse(a + b) == Collapse(a) + Collapse(b)
  {
    var ab := a + b;
    var t := SkipRun(a[1..]);
    HeadTailOfConcat(a, b);
    assert Collapse(ab) == "-" + Collapse(t + b);
    assert Collapse(a) == "-" + Collapse(t);
    JoinAfterHead(Collapse(ab), Collapse(a), "-", Collapse(t), Collapse(b));
  }

  /** A non-empty run with no letter or digit, followed by a letter or digit
      or by nothing, becomes exactly one hyphen. */
  lemma RunIsOneHyphen(w: string, b: string)
    requires |w| > 0 && NoAlnum(w) && (|b| == 0 || IsSlugAlnum(b[0]))
    ensures Collapse(w + b) == "-" + Collapse(b)
  {
    HeadTailOfConcat(w, b);
    SkipRunNoAlnum(w[1..], b);
  }

  lemma LowerTwoWords(w1: string, sep: string, w2: string)
    requires SlugChars(w1) && SlugChars(w2)
    ensures Lower(w1 + (sep + w2)) == w1 + (Lower(sep) + w2)
  {
    LowerConcat(w1, sep + w2);
    LowerConcat(sep, w2);
    LowerOfSlugChars(w1);
    LowerOfSlugChars(w2);
  }

  lemma CollapseTwoWords(w1: string, l: string, w2: string)
    requires |w1| > 0 && |w2| > 0 && |l| > 0 && NoAlnum(l)
    requires forall i :: 0 <= i < |w1| ==> IsSlugAlnum(w1[i])
    requires forall i :: 0 <= i < |w2| ==> IsSlugAlnum(w2[i])
    ensures Collapse(w1 + (l + w2)) == w1 + ("-" + w2)
  {
    CollapseConcat(w1, l + w2);
    CollapseOfCollapsed(w1);
    RunIsOneHyphen(l, w2);
    CollapseOfCollapsed(w2);
  }

  /** Two words separated by any non-empty run of other characters give the
      words joined by one hyphen: "hello, world" gives "hello-world". */
  lemma TwoWordsBase(w1: string, sep: string, w2: string)
    requires |w1| > 0 && |w2| > 0 && |sep| > 0
    requires forall i :: 0 <= i < |w1| ==> IsSlugAlnum(w1[i])
    requires forall i :: 0 <= i < |w2| ==> IsSlugAlnum(w2[i])
    requires forall i :: 0 <= i < |sep| ==> !IsSlugAlnum(LowerChar(sep[i]))
    ensures Base(w1 + (sep + w2)) == w1 + ("-" + w2)
  {
    CollapseLowerTwoWords(w1, sep, w2);
    BaseOfCollapsed(w1 + (sep + w2), w1, w2);
  }

  lemma CollapseLowerTwoWords(w1: string, sep: string, w2: string)
    requires |w1| > 0 && |w2| > 0 && |sep| > 0
    requires forall i :: 0 <= i < |w1| ==> IsSlugAlnum(w1[i])
    requires forall i :: 0 <= i < |w2| ==> IsSlugAlnum(w2[i])
    requires NoAlnum(Lower(sep))
    ensures Collapse(Lower(w1 + (sep + w2))) == w1 + ("-" + w2)
  {
    LowerTwoWords(w1, sep, w2);
    CollapseTwoWords(w1, Lower(sep), w2);
  }

  lemma BaseOfCollapsed(t: string, w1: string, w2: string)
    requires |w1| > 0 && |w2| > 0 && IsSlugAlnum(w1[0]) && IsSlugAlnum(w2[|w2| - 1])
    requires Collapse(Lower(t)) == w1 + ("-" + w2)
    ensures Base(t) == w1 + ("-" + w2)
  {
    var c := w1 + ("-" + w2);
    assert c[0] == w1[0] && c[|c| - 1] == w2[|w2| - 1];
    assert TrimHyphens(c) == c;
  }

  lemma {:induction false} DecimalRoundTrip(n: nat)
    ensures DecimalValue(Decimal(n)) == n
  {
    if n >= 10 {
      DecimalRoundTrip(n / 10);
      var d := Decimal(n);
      assert d[..|d| - 1] == Decimal(n / 10);
    }
  }

  /** The last hyphen of `b + "-" + d` is the joining one when `d` has none. */
  lemma {:induction false} LastHyphenOfJoin(b: string, d: string)
    requires forall j :: 0 <= j < |d| ==> d[j] != '-'
    ensures LastHyphen(b + "-" + d) == Some(|b|)
    decreases |d|
  {
    var s := b + "-" + d;
    if |d| > 0 {
      var d' := d[..|d| - 1];
      assert s[|s| - 1] == d[|d| - 1];
      assert s[..|s| - 1] == b + "-" + d';
      LastHyphenOfJoin(b, d');
    }
  }

  /** Splitting `b + "-" + decimal(n)` gives back `b` and `n`. */
  lemma SplitJoin(b: string, n: nat)
    ensures SplitSlug(b + "-" + Decimal(n)) == Some((b, n))
  {
    var d := Decimal(n);
    var s := b + "-" + d;
    LastHyphenOfJoin(b, d);
    assert s[..|b|] == b;
    assert s[|b| + 1..] == d;
    DecimalRoundTrip(n);
  }

  /** The stored slug splits back into its base and its timestamp, because
      the decimal suffix contains no hyphen. */
  lemma SplitSlugFor(title: string, timestamp: nat)
    ensures SplitSlug(SlugFor(title, timestamp)) == Some((Base(title), timestamp))
  {
    SplitJoin(Base(title), timestamp);
  }

  /** Two stored slugs are equal only if both their bases and their
      timestamps are: different timestamps always give different slugs. */
  lemma SlugForInjective(t1: string, ts1: nat, t2: string, ts2: nat)
    ensures SlugFor(t1, ts1) == SlugFor(t2, ts2) ==> Base(t1) == Base(t2) && ts1 == ts2
  {
    SplitSlugFor(t1, ts1);
    SplitSlugFor(t2, ts2);
  }
}
