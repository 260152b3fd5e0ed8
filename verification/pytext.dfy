/** The handful of Python string and truthiness primitives that `FitbitAuth`
    relies on, as pure functions over `seq<char>`. */
module PyText {
  import opened Wrappers

  /** Python truthiness of an optional string: `None` and `''` are falsy. */
  predicate Truthy(s: Option<string>)
  {
    s.Some? && |s.value| > 0
  }

  /** Python's builtin `all` over a list of truth values. */
  function All(xs: seq<bool>): (r: bool)
    ensures r <==> forall i :: 0 <= i < |xs| ==> xs[i]
  {
    if |xs| == 0 then true else xs[0] && All(xs[1..])
  }

  /** Python's `s.replace(target, replacement)` for a one-character `target`: every
      occurrence of `target` is replaced by `replacement`, left to right. */
  function Replace(s: string, target: char, replacement: string): (r: string)
    ensures target !in replacement ==> target !in r
    ensures |s| == 0 ==> r == ""
  {
    if |s| == 0 then "" else (if s[0] == target then replacement else [s[0]]) + Replace(s[1..], target, replacement)
  }

  /** Replacing distributes over concatenation. */
  lemma {:induction false} ReplaceAppend(a: string, b: string, target: char, replacement: string)
    ensures Replace(a + b, target, replacement) == Replace(a, target, replacement) + Replace(b, target, replacement)
  {
    if |a| == 0 {
      assert a + b == b;
    } else {
      assert (a + b)[1..] == a[1..] + b;
      ReplaceAppend(a[1..], b, target, replacement);
    }
  }

  /** A string without `target` is left untouched by the replacement. */
  lemma {:induction false} ReplaceAbsent(s: string, target: char, replacement: string)
    requires target !in s
    ensures Replace(s, target, replacement) == s
  {
    if |s| > 0 {
      assert target !in s[1..];
      ReplaceAbsent(s[1..], target, replacement);
    }
  }

  /** Python's `sep.join(xs)`. */
  function Join(sep: string, xs: seq<string>): string
  {
    if |xs| == 0 then ""
    else if |xs| == 1 then xs[0]
    else xs[0] + sep + Join(sep, xs[1..])
  }

  /** Python's `s.split(sep)` for a non-empty separator: a left-to-right scan
      that cuts at every non-overlapping occurrence of `sep`. */
  function Split(s: string, sep: string): (r: seq<string>)
    requires |sep| > 0
    ensures |r| > 0
    decreases |s|
  {
    if |s| < |sep| then [s]
    else if s[..|sep|] == sep then [""] + Split(s[|sep|..], sep)
    else
      var rest := Split(s[1..], sep);
      [[s[0]] + rest[0]] + rest[1..]
  }

  /** A string that cannot start a separator is a single field. */
  lemma {:induction false} SplitNoSeparator(x: string, sep: string)
    requires |sep| > 0 && sep[0] !in x
    ensures Split(x, sep) == [x]
    decreases |x|
  {
    if |x| >= |sep| {
      assert x[..|sep|][0] == x[0];
      assert sep[0] !in x[1..];
      SplitNoSeparator(x[1..], sep);
      assert [x[0]] + x[1..] == x;
    }
  }

  /** A leading field free of the separator's first character is cut off
      exactly at the separator that follows it. */
  lemma {:induction false} SplitLeadingField(x: string, sep: string, rest: string)
    requires |sep| > 0 && sep[0] !in x
    ensures Split(x + sep + rest, sep) == [x] + Split(rest, sep)
    decreases |x|
  {
    var s := x + sep + rest;
    if |x| == 0 {
      assert s == sep + rest;
      assert s[..|sep|] == sep;
      assert s[|sep|..] == rest;
    } else {
      assert s[0] == x[0];
      assert s[..|sep|][0] == x[0];
      assert sep[0] !in x[1..];
      assert s[1..] == x[1..] + sep + rest;
      SplitLeadingField(x[1..], sep, rest);
      assert [x[0]] + x[1..] == x;
    }
  }

  /** Splitting undoes joining when no field contains the separator's first
      character (the join of an empty list is `''`, which splits to `['']`,
      hence the non-empty list). */
  lemma {:induction false} SplitJoin(xs: seq<string>, sep: string)
    requires |sep| > 0 && |xs| > 0
    requires forall i :: 0 <= i < |xs| ==> sep[0] !in xs[i]
    ensures Split(Join(sep, xs), sep) == xs
    decreases |xs|
  {
    if |xs| == 1 {
      SplitNoSeparator(xs[0], sep);
    } else {
      SplitLeadingField(xs[0], sep, Join(sep, xs[1..]));
      SplitJoin(xs[1..], sep);
      assert [xs[0]] + xs[1..] == xs;
    }
  }
}
