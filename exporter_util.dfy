/**
 * Helpers of the Prometheus exporter (exporter/util.cc): recognising a
 * string of decimal digits, and turning a Ceph counter name into a
 * Prometheus metric name.
 */
module ExporterUtil {
  import opened Strings

  /**
   * string_is_digit: scans while the characters are digits and reports
   * whether it reached the end. The source reads s[i] before comparing i
   * with the size; s[size] is the string's terminating NUL, no digit, so
   * testing the bound first changes nothing.
   */
  method StringIsDigit(s: string) returns (r: bool)
    ensures r <==> forall k :: 0 <= k < |s| ==> IsDigit(s[k])
  {
    var i := 0;
    while i < |s| && IsDigit(s[i])
      invariant 0 <= i <= |s|
      invariant forall k :: 0 <= k < i ==> IsDigit(s[k])
    {
      i := i + 1;
    }
    r := i >= |s|;
  }

  /** The characters promethize turns into '_'. */
  predicate ShouldBeUnderscore(ch: char)
  {
    ch == '.' || ch == '/' || ch == ' ' || ch == '-'
  }

  /** std::replace_if with ShouldBeUnderscore and '_'. */
  function Underscored(s: string): (r: string)
    ensures |r| == |s|
    ensures forall k :: 0 <= k < |s| ==> r[k] == if ShouldBeUnderscore(s[k]) then '_' else s[k]
  {
    if |s| == 0 then [] else Underscored(s[..|s| - 1]) + [if ShouldBeUnderscore(s[|s| - 1]) then '_' else s[|s| - 1]]
  }

  /**
   * boost::replace_all: every occurrence of `pat`, found left to right and
   * not overlapping, is replaced by `rep`.
   */
  function ReplaceAll(s: string, pat: string, rep: string): (r: string)
    requires |pat| > 0
    ensures |rep| == |pat| ==> |r| == |s|
    decreases |s|
  {
    if |s| == 0 then []
    else if pat <= s then rep + ReplaceAll(s[|pat|..], pat, rep)
    else [s[0]] + ReplaceAll(s[1..], pat, rep)
  }

  /** Replacing a one-character pattern by a text without it removes every occurrence. */
  lemma {:induction false} ReplaceAllRemovesChar(s: string, c: char, rep: string)
    requires c !in rep
    ensures c !in ReplaceAll(s, [c], rep)
    decreases |s|
  {
    if |s| > 0 {
      if [c] <= s {
        ReplaceAllRemovesChar(s[|[c]|..], c, rep);
      } else {
        assert s[0] != c;
        ReplaceAllRemovesChar(s[1..], c, rep);
      }
    }
  }

  /** A tail with none of the pattern's characters passes through a replacement unchanged. */
  lemma {:induction false} ReplaceAllInertTail(a: string, b: string, pat: string, rep: string)
    requires |pat| > 0
    requires forall k :: 0 <= k < |b| ==> b[k] !in pat
    ensures ReplaceAll(a + b, pat, rep) == ReplaceAll(a, pat, rep) + b
    decreases |a| + |b|
  {
    if |a| == 0 {
      assert a + b == b;
      ReplaceAllInert(b, pat, rep);
    } else if pat <= a + b {
      MatchStaysInHead(a, b, pat);
      assert (a + b)[|pat|..] == a[|pat|..] + b;
      ReplaceAllInertTail(a[|pat|..], b, pat, rep);
    } else {
      assert (a + b)[1..] == a[1..] + b;
      ReplaceAllInertTail(a[1..], b, pat, rep);
    }
  }

  /** A match at the front of a + b cannot run into b, which holds none of the pattern's characters. */
  lemma MatchStaysInHead(a: string, b: string, pat: string)
    requires |pat| > 0 && pat <= a + b
    requires forall k :: 0 <= k < |b| ==> b[k] !in pat
    ensures |pat| <= |a| && pat <= a
  {
    assert forall k :: |a| <= k < |a| + |b| ==> (a + b)[k] == b[k - |a|];
    assert pat[|pat| - 1] in pat && (a + b)[|pat| - 1] == pat[|pat| - 1];
  }

  lemma {:induction false} ReplaceAllInert(b: string, pat: string, rep: string)
    requires |pat| > 0
    requires forall k :: 0 <= k < |b| ==> b[k] !in pat
    ensures ReplaceAll(b, pat, rep) == b
    decreases |b|
  {
    if |b| > 0 {
      assert b[0] !in pat;
      assert !(pat <= b);
      ReplaceAllInert(b[1..], pat, rep);
    }
  }

  /** A trailing '-' becomes "_minus". */
  function FixTrailingMinus(name: string): (r: string)
    requires |name| > 0
  {
    if name[|name| - 1] == '-' then name[..|name| - 1] + "_" + "minus" else name
  }

  /** The std::replace_if step of promethize, one character at a time. */
  method ReplaceIfUnderscore(s: string) returns (name: string)
    ensures name == Underscored(s)
  {
    name := s;
    var i := 0;
    while i < |name|
      invariant 0 <= i <= |name| == |s|
      invariant forall k :: 0 <= k < i ==> name[k] == Underscored(s)[k]
      invariant forall k :: i <= k < |s| ==> name[k] == s[k]
    {
      if ShouldBeUnderscore(name[i]) {
        name := name[i := '_'];
      }
      i := i + 1;
    }
  }

  /** What promethize makes of a counter name. */
  function Promethized(name: string): string
    requires |name| > 0
  {
    "ceph_" + ReplaceAll(ReplaceAll(Underscored(FixTrailingMinus(name)), "::", "_"), "+", "_plus")
  }

  /**
   * promethize, editing the name in place: the trailing '-', then the
   * character replacements, then the two text replacements, then the
   * prefix. The name must not be empty (its last character is read).
   */
  method Promethize(name0: string) returns (name: string)
    requires |name0| > 0
    ensures name == Promethized(name0)
    ensures |name| >= 5 && name[..5] == "ceph_"
  {
    name := name0;
    if name[|name| - 1] == '-' {
      name := name[|name| - 1 := '_'];
      name := name + "minus";
    }
    assert name == FixTrailingMinus(name0);
    name := ReplaceIfUnderscore(name);
    name := ReplaceAll(name, "::", "_");
    name := ReplaceAll(name, "+", "_plus");
    name := "ceph_" + name;
  }

  /** A promethized name has none of '.', '/', ' ', '-' and '+'. */
  lemma PromethizedHasNoForbiddenChars(name: string, c: char)
    requires |name| > 0
    requires c in {'.', '/', ' ', '-', '+'}
    ensures c !in Promethized(name)[5..]
  {
    var u := Underscored(FixTrailingMinus(name));
    var v := ReplaceAll(u, "::", "_");
    var w := ReplaceAll(v, "+", "_plus");
    assert Promethized(name)[5..] == w;
    if c == '+' {
      ReplaceAllRemovesChar(v, '+', "_plus");
    } else {
      UnderscoredHasNone(FixTrailingMinus(name), c);
      ReplaceAllKeepsAbsent(u, "::", "_", c);
      ReplaceAllKeepsAbsent(v, "+", "_plus", c);
    }
  }

  /** No character replace_if turns into '_' survives it. */
  lemma UnderscoredHasNone(s: string, c: char)
    requires ShouldBeUnderscore(c)
    ensures c !in Underscored(s)
  {
    assert forall k :: 0 <= k < |Underscored(s)| ==> Underscored(s)[k] != c;
  }

  /** A character in neither the input nor the replacement text is not in the result. */
  lemma {:induction false} ReplaceAllKeepsAbsent(s: string, pat: string, rep: string, c: char)
    requires |pat| > 0
    requires c !in s && c !in rep
    ensures c !in ReplaceAll(s, pat, rep)
    decreases |s|
  {
    if |s| > 0 {
      if pat <= s {
        assert forall x :: x in s[|pat|..] ==> x in s;
        ReplaceAllKeepsAbsent(s[|pat|..], pat, rep, c);
      } else {
        assert forall x :: x in s[1..] ==> x in s;
        ReplaceAllKeepsAbsent(s[1..], pat, rep, c);
      }
    }
  }

  /** A name ending in '-' comes out ending in "_minus". */
  lemma PromethizedKeepsMinus(name: string)
    requires |name| > 0 && name[|name| - 1] == '-'
    ensures |Promethized(name)| >= 6 && Promethized(name)[|Promethized(name)| - 6..] == "_minus"
  {
    var head := name[..|name| - 1];
    var fixed := FixTrailingMinus(name);
    assert fixed == head + "_minus";
    var u := Underscored(fixed);
    assert u == Underscored(head) + "_minus";
    ReplaceAllInertTail(Underscored(head), "_minus", "::", "_");
    var v := ReplaceAll(Underscored(head), "::", "_") + "_minus";
    ReplaceAllInertTail(ReplaceAll(Underscored(head), "::", "_"), "_minus", "+", "_plus");
    assert Promethized(name) == "ceph_" + ReplaceAll(ReplaceAll(Underscored(head), "::", "_"), "+", "_plus") + "_minus";
  }
}
