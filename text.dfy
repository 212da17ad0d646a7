/**
  * The java.lang.String operations the analyser relies on, with Java's semantics:
  * trim, ASCII toLowerCase, startsWith / endsWith / contains, indexOf / lastIndexOf
  * of a character, split on a one-character pattern, String.join, the
  * replaceAll("<[^>]+>", "") that strips generic arguments, String.valueOf(int)
  * and compareTo.
  */
module Text {
  import opened Seqs

  datatype Option<T> = None | Some(value: T)

  // ---------------------------------------------------------------------------
  // String.trim

  /** String.trim removes every leading and trailing code point up to U+0020. */
  predicate IsTrimmable(c: char) {
    c <= ' '
  }

  /** `s.trim().isEmpty()` */
  predicate IsBlank(s: string) {
    forall i :: 0 <= i < |s| ==> IsTrimmable(s[i])
  }

  /** A string that trim leaves as it is. */
  predicate IsTrimmed(s: string) {
    s == [] || (!IsTrimmable(s[0]) && !IsTrimmable(s[|s| - 1]))
  }

  /** The number of blanks at the front of `s`. */
  function LeadingBlanks(s: string): (n: nat)
    ensures n <= |s|
    ensures forall i :: 0 <= i < n ==> IsTrimmable(s[i])
    ensures n < |s| ==> !IsTrimmable(s[n])
  {
    if s != [] && IsTrimmable(s[0]) then 1 + LeadingBlanks(s[1..]) else 0
  }

  /** The number of blanks at the end of `s`. */
  function TrailingBlanks(s: string): (n: nat)
    ensures n <= |s|
    ensures forall i :: |s| - n <= i < |s| ==> IsTrimmable(s[i])
    ensures n < |s| ==> !IsTrimmable(s[|s| - 1 - n])
  {
    if s != [] && IsTrimmable(s[|s| - 1]) then 1 + TrailingBlanks(s[..|s| - 1]) else 0
  }

  /** String.trim: the result no longer starts or ends with a blank, and is empty exactly when `s` is blank. */
  function Trim(s: string): (r: string)
    ensures IsTrimmed(r)
    ensures r == [] <==> IsBlank(s)
  {
    var lead := LeadingBlanks(s);
    if lead == |s| then [] else s[lead..|s| - TrailingBlanks(s)]
  }

  /** Trimming only removes characters. */
  lemma TrimKeepsOut(s: string, c: char)
    ensures c !in s ==> c !in Trim(s)
  {
    var lead := LeadingBlanks(s);
    if lead < |s| {
      var r := Trim(s);
      if c in r {
        var k :| 0 <= k < |r| && r[k] == c;
        assert s[lead + k] == c;
      }
    }
  }

  lemma TrimOfTrimmed(s: string)
    requires IsTrimmed(s)
    ensures Trim(s) == s
  {
  }

  /** Trimming a trimmed non-empty string with blank padding in front gives the string back. */
  lemma TrimAfterPadding(pad: string, s: string)
    requires IsBlank(pad) && s != [] && IsTrimmed(s)
    ensures Trim(pad + s) == s
  {
    var t := pad + s;
    assert t[|pad|] == s[0] && t[|t| - 1] == s[|s| - 1];
    assert forall i :: 0 <= i < |pad| ==> t[i] == pad[i];
    assert TrailingBlanks(t) == 0;
    assert t[|pad|..|t|] == s;
  }

  /** Trim only strips blanks: the input is blank padding, the result, and blank padding. */
  lemma TrimDecomposes(s: string)
    ensures var lead, trail := LeadingBlanks(s), TrailingBlanks(s);
            !IsBlank(s) ==> lead + trail < |s| && IsBlank(s[..lead]) && IsBlank(s[|s| - trail..]) &&
                            s == s[..lead] + Trim(s) + s[|s| - trail..]
  {
    var lead, trail := LeadingBlanks(s), TrailingBlanks(s);
    if !IsBlank(s) {
      BlanksLeaveMiddle(s);
      BlankSlices(s, lead, trail);
      Slices3(s, lead, |s| - trail);
    }
  }

  /** A string that is not blank keeps a character between its leading and trailing blanks. */
  lemma BlanksLeaveMiddle(s: string)
    requires !IsBlank(s)
    ensures LeadingBlanks(s) + TrailingBlanks(s) < |s|
  {
    var k :| 0 <= k < |s| && !IsTrimmable(s[k]);
    assert LeadingBlanks(s) <= k;
  }

  lemma BlankSlices(s: string, lead: nat, trail: nat)
    requires lead + trail <= |s|
    requires forall i :: 0 <= i < lead ==> IsTrimmable(s[i])
    requires forall i :: |s| - trail <= i < |s| ==> IsTrimmable(s[i])
    ensures IsBlank(s[..lead]) && IsBlank(s[|s| - trail..])
  {
  }

  /** Trim is determined by that decomposition: stripping blank padding from a trimmed
      non-empty string gives back that string. */
  lemma TrimUnique(a: string, t: string, b: string)
    requires IsBlank(a) && IsBlank(b) && t != [] && IsTrimmed(t)
    ensures Trim(a + t + b) == t
  {
    var s := a + t + b;
    assert s[|a|] == t[0] && s[|a| + |t| - 1] == t[|t| - 1];
    var lead, trail := LeadingBlanks(s), TrailingBlanks(s);
    assert forall i :: 0 <= i < |a| ==> s[i] == a[i];
    assert forall i :: |a| + |t| <= i < |s| ==> s[i] == b[i - |a| - |t|];
    assert lead == |a|;
    assert trail == |b|;
    assert s[lead..|s| - trail] == t;
  }

  // ---------------------------------------------------------------------------
  // toLowerCase (ASCII letters only)

  function LowerChar(c: char): (r: char)
    ensures 'A' <= c <= 'Z' ==> r as int == c as int + 32
    ensures !('A' <= c <= 'Z') ==> r == c
  {
    if 'A' <= c <= 'Z' then (c as int + 32) as char else c
  }

  function Lower(s: string): (r: string)
    ensures |r| == |s| && forall i :: 0 <= i < |s| ==> r[i] == LowerChar(s[i])
  {
    seq(|s|, i requires 0 <= i < |s| => LowerChar(s[i]))
  }

  // ---------------------------------------------------------------------------
  // startsWith, endsWith, contains, indexOf, lastIndexOf

  predicate StartsWith(s: string, prefix: string) {
    |prefix| <= |s| && s[..|prefix|] == prefix
  }

  predicate EndsWith(s: string, suffix: string) {
    |suffix| <= |s| && s[|s| - |suffix|..] == suffix
  }

  predicate Contains(s: string, part: string)
    decreases |s|
  {
    StartsWith(s, part) || (s != [] && Contains(s[1..], part))
  }

  /** indexOf(c) for a character known to occur. */
  function IndexOf(s: string, c: char): (i: nat)
    requires c in s
    ensures i < |s| && s[i] == c
    ensures forall k :: 0 <= k < i ==> s[k] != c
  {
    if s[0] == c then 0 else
      assert c in s[1..] by { var k :| 0 <= k < |s| && s[k] == c; assert s[1..][k - 1] == c; }
      IndexOf(s[1..], c) + 1
  }

  /** lastIndexOf(c): the largest index holding `c`, or -1. */
  function LastIndexOf(s: string, c: char): (i: int)
    ensures -1 <= i < |s|
    ensures i == -1 <==> c !in s
    ensures i >= 0 ==> s[i] == c
    ensures forall k :: i < k < |s| ==> s[k] != c
  {
    if s == [] then -1
    else if s[|s| - 1] == c then |s| - 1
    else LastIndexOf(s[..|s| - 1], c)
  }

  // ---------------------------------------------------------------------------
  // split and join

  /** Every piece between occurrences of `sep`, empty pieces included. */
  function SplitAll(s: string, sep: char): (parts: seq<string>)
    ensures |parts| >= 1
    ensures forall i :: 0 <= i < |parts| ==> sep !in parts[i]
    decreases |s|
  {
    if sep !in s then [s]
    else
      var i := IndexOf(s, sep);
      [s[..i]] + SplitAll(s[i + 1..], sep)
  }

  function DropTrailingEmpty(parts: seq<string>): (r: seq<string>)
    ensures |r| <= |parts| && r == parts[..|r|]
    ensures r == [] || r[|r| - 1] != []
  {
    if parts != [] && parts[|parts| - 1] == [] then DropTrailingEmpty(parts[..|parts| - 1]) else parts
  }

  /** String.split with a one-character pattern and no limit: trailing empty strings are removed;
      a string without the separator splits into itself. */
  function JavaSplit(s: string, sep: char): (parts: seq<string>)
    ensures forall i :: 0 <= i < |parts| ==> sep !in parts[i]
  {
    if sep !in s then [s] else DropTrailingEmpty(SplitAll(s, sep))
  }

  /** String.join(delimiter, parts) */
  function Join(parts: seq<string>, delimiter: string): string
  {
    if parts == [] then ""
    else if |parts| == 1 then parts[0]
    else parts[0] + delimiter + Join(parts[1..], delimiter)
  }

  /** Splitting at the first separator: the text before it, then the pieces of the rest. */
  lemma SplitAllAt(a: string, sep: char, b: string)
    requires sep !in a
    ensures SplitAll(a + [sep] + b, sep) == [a] + SplitAll(b, sep)
  {
    var s := a + [sep] + b;
    assert s[|a|] == sep;
    assert s[..|a|] == a;
    var i := IndexOf(s, sep);
    assert i == |a|;
    assert s[i + 1..] == b;
  }

  /** Moving the middle piece between the two separators. */
  lemma Regroup<T>(a: seq<T>, b: seq<T>, c: seq<T>, x: T)
    ensures a + [x] + b + [x] + c == a + [x] + (b + [x] + c)
  {
  }

  /** Three separator-free pieces joined by the separator split back into themselves. */
  lemma SplitThree(a: string, b: string, c: string, sep: char)
    requires sep !in a && sep !in b && sep !in c
    ensures SplitAll(a + [sep] + b + [sep] + c, sep) == [a, b, c]
  {
    Regroup(a, b, c, sep);
    SplitAllAt(a, sep, b + [sep] + c);
    SplitAllAt(b, sep, c);
  }

  /** Splitting a join is the identity on parts that do not contain the separator. */
  lemma {:induction false} SplitJoin(parts: seq<string>, sep: char)
    requires |parts| >= 1
    requires forall i :: 0 <= i < |parts| ==> sep !in parts[i]
    ensures SplitAll(Join(parts, [sep]), sep) == parts
    decreases |parts|
  {
    if |parts| > 1 {
      SplitJoin(parts[1..], sep);
      SplitAllAt(parts[0], sep, Join(parts[1..], [sep]));
      assert parts == [parts[0]] + parts[1..];
    }
  }

  /** Joining the pieces of a split rebuilds the string. */
  lemma {:induction false} JoinSplit(s: string, sep: char)
    ensures Join(SplitAll(s, sep), [sep]) == s
    decreases |s|
  {
    if sep in s {
      var i := IndexOf(s, sep);
      var rest := SplitAll(s[i + 1..], sep);
      assert SplitAll(s, sep) == [s[..i]] + rest;
      JoinSplit(s[i + 1..], sep);
      JoinCons(s[..i], rest, [sep]);
      assert s == s[..i] + [sep] + s[i + 1..];
    }
  }

  /** Joining one more leading part. */
  lemma JoinCons(first: string, rest: seq<string>, delimiter: string)
    requires |rest| >= 1
    ensures Join([first] + rest, delimiter) == first + delimiter + Join(rest, delimiter)
  {
    assert ([first] + rest)[1..] == rest;
  }

  // ---------------------------------------------------------------------------
  // replaceAll("<[^>]+>", "")

  /** Removes, left to right, every `<` followed by one or more non-`>` characters and a `>`. */
  function StripGenerics(s: string): (r: string)
    ensures |r| <= |s|
    ensures '<' !in s ==> r == s
    decreases |s|
  {
    if s == [] then []
    else if s[0] == '<' && |s| >= 2 && s[1] != '>' && '>' in s[1..] then
      StripGenerics(s[IndexOf(s[1..], '>') + 2..])
    else
      assert '<' !in s ==> '<' !in s[1..];
      [s[0]] + StripGenerics(s[1..])
  }

  /** A prefix without '<' passes through unchanged. */
  lemma {:induction false} StripGenericsPrefix(a: string, b: string)
    requires '<' !in a
    ensures StripGenerics(a + b) == a + StripGenerics(b)
    decreases |a|
  {
    if a == [] {
      assert a + b == b;
    } else {
      StripGenericsHeadKept(a + b);
      assert (a + b)[1..] == a[1..] + b;
      StripGenericsPrefix(a[1..], b);
      AppendAssoc([a[0]], a[1..], StripGenerics(b));
      assert [a[0]] + a[1..] == a;
    }
  }

  /** A first character other than '<' is kept. */
  lemma StripGenericsHeadKept(s: string)
    requires s != [] && s[0] != '<'
    ensures StripGenerics(s) == [s[0]] + StripGenerics(s[1..])
  {
  }

  /** One generic argument `<g>` between text without '<' is removed. */
  lemma StripGenericsOne(a: string, g: string, rest: string)
    requires '<' !in a && '<' !in rest
    requires g != [] && '>' !in g
    ensures StripGenerics(a + "<" + g + ">" + rest) == a + rest
  {
    var generic := "<" + g + ">" + rest;
    GenericAfterPrefix(a, g, rest);
    StripGenericsPrefix(a, generic);
    StripGenericsAtOpen(g, rest);
    assert StripGenerics(rest) == rest;
  }

  lemma GenericAfterPrefix(a: string, g: string, rest: string)
    ensures a + "<" + g + ">" + rest == a + ("<" + g + ">" + rest)
  {
  }

  /** A leading `<g>` is dropped as a whole. */
  lemma StripGenericsAtOpen(g: string, rest: string)
    requires g != [] && '>' !in g
    ensures StripGenerics("<" + g + ">" + rest) == StripGenerics(rest)
  {
    var generic := "<" + g + ">" + rest;
    assert generic[1..] == g + ">" + rest;
    assert generic[1..][|g|] == '>';
    assert IndexOf(generic[1..], '>') == |g|;
    assert generic[|g| + 2..] == rest;
  }

  /** Stripping only removes characters. */
  lemma {:induction false} StripGenericsKeepsOut(s: string, c: char)
    requires c !in s
    ensures c !in StripGenerics(s)
    decreases |s|
  {
    if s == [] {
    } else if s[0] == '<' && |s| >= 2 && s[1] != '>' && '>' in s[1..] {
      var offset := IndexOf(s[1..], '>') + 2;
      var t := s[offset..];
      assert forall k :: 0 <= k < |t| ==> t[k] == s[offset + k];
      StripGenericsKeepsOut(t, c);
    } else {
      assert c !in s[1..];
      StripGenericsKeepsOut(s[1..], c);
    }
  }

  // ---------------------------------------------------------------------------
  // String.valueOf(int) for counts

  function DigitChar(d: nat): (c: char)
    requires d < 10
    ensures '0' <= c <= '9'
  {
    ('0' as int + d) as char
  }

  function Decimal(n: nat): (r: string)
    ensures |r| >= 1
    ensures forall i :: 0 <= i < |r| ==> '0' <= r[i] <= '9'
  {
    if n < 10 then [DigitChar(n)] else Decimal(n / 10) + [DigitChar(n % 10)]
  }

  /** Reads a string of decimal digits back as a number, most significant digit first. */
  function DigitsValue(r: string): nat
  {
    if r == [] then 0
    else
      var d := r[|r| - 1] as int - '0' as int;
      DigitsValue(r[..|r| - 1]) * 10 + (if 0 <= d < 10 then d else 0)
  }

  /** Decimal is String.valueOf on counts: it reads back as n and has no leading zero. */
  lemma {:induction false} DecimalReadsBack(n: nat)
    ensures DigitsValue(Decimal(n)) == n
    ensures Decimal(n)[0] == '0' ==> n == 0
  {
    if n >= 10 {
      DecimalReadsBack(n / 10);
      var r := Decimal(n);
      assert r[..|r| - 1] == Decimal(n / 10);
    }
  }

  /** Different counts give different count columns. */
  lemma DecimalInjective(m: nat, n: nat)
    ensures Decimal(m) == Decimal(n) <==> m == n
  {
    DecimalReadsBack(m);
    DecimalReadsBack(n);
  }

  // ---------------------------------------------------------------------------
  // String.compareTo(...) <= 0: lexicographic order on characters

  predicate LexLe(a: string, b: string)
    decreases |a|
  {
    a == [] || (b != [] && (a[0] < b[0] || (a[0] == b[0] && LexLe(a[1..], b[1..]))))
  }

  lemma LexLeReflexive(a: string)
    ensures LexLe(a, a)
  {
  }

  lemma LexLeTotal(a: string, b: string)
    ensures LexLe(a, b) || LexLe(b, a)
    decreases |a|
  {
    if a != [] && b != [] && a[0] == b[0] {
      LexLeTotal(a[1..], b[1..]);
    }
  }

  lemma LexLeAntisymmetric(a: string, b: string)
    requires LexLe(a, b) && LexLe(b, a)
    ensures a == b
    decreases |a|
  {
    if a != [] {
      LexLeAntisymmetric(a[1..], b[1..]);
    }
  }

  lemma LexLeTransitive(a: string, b: string, c: string)
    requires LexLe(a, b) && LexLe(b, c)
    ensures LexLe(a, c)
    decreases |a|
  {
    if a != [] && b != [] && c != [] && a[0] == b[0] && b[0] == c[0] {
      LexLeTransitive(a[1..], b[1..], c[1..]);
    }
  }
}
