/**
 Placeholders `${name}` in texts, seen in two ways: `ParameterSupportBase.getParameters` finds every one inside a
 text, `ConfigValidator.checkReferenceParameters` looks at whole texts and strips the brackets.
 */
module Placeholders {
  import opened Options
  import opened Seqs
  import opened JavaStrings

  // ---------- names inside a text ----------

  predicate IsLetter(c: char)
  {
    'a' <= c <= 'z' || 'A' <= c <= 'Z'
  }

  predicate IsNameChar(c: char)
  {
    IsLetter(c) || '0' <= c <= '9' || c == '_'
  }

  /** A letter, then letters, digits and underscores. */
  predicate IsName(n: string)
  {
    n != "" && IsLetter(n[0]) && forall i :: 0 <= i < |n| ==> IsNameChar(n[i])
  }

  const SMALL_LETTERS: set<char> :=
    {'a', 'b', 'c', 'd', 'e', 'f', 'g', 'h', 'i', 'j', 'k', 'l', 'm', 'n', 'o', 'p', 'q', 'r', 's', 't', 'u', 'v',
     'w', 'x', 'y', 'z'}

  const CAPITAL_LETTERS: set<char> :=
    {'A', 'B', 'C', 'D', 'E', 'F', 'G', 'H', 'I', 'J', 'K', 'L', 'M', 'N', 'O', 'P', 'Q', 'R', 'S', 'T', 'U', 'V',
     'W', 'X', 'Y', 'Z'}

  const LETTERS := SMALL_LETTERS + CAPITAL_LETTERS

  const DIGITS: set<char> := {'0', '1', '2', '3', '4', '5', '6', '7', '8', '9'}

  lemma SmallIff(c: char)
    ensures 'a' <= c <= 'z' <==> c in SMALL_LETTERS
  {
  }

  lemma CapitalIff(c: char)
    ensures 'A' <= c <= 'Z' <==> c in CAPITAL_LETTERS
  {
  }

  lemma LetterIff(c: char)
    ensures IsLetter(c) <==> c in LETTERS
  {
    SmallIff(c);
    CapitalIff(c);
  }

  lemma DigitIff(c: char)
    ensures '0' <= c <= '9' <==> c in DIGITS
  {
  }

  /** The names in placeholders, by their characters. */
  lemma NameIff(n: string)
    ensures IsName(n) <==>
              && n != "" && n[0] in LETTERS
              && forall c :: c in n ==> c in LETTERS || c in DIGITS || c == '_'
  {
    forall i | 0 <= i < |n|
      ensures n[i] in n && (IsNameChar(n[i]) <==> n[i] in LETTERS || n[i] in DIGITS || n[i] == '_')
    {
      LetterIff(n[i]);
      DigitIff(n[i]);
    }
    if n != "" {
      LetterIff(n[0]);
    }
  }

  function Placeholder(n: string): string
  {
    "${" + n + "}"
  }

  /** Where the name characters from `from` on end. */
  function NameEnd(s: string, from: nat): (r: nat)
    requires from <= |s|
    ensures from <= r <= |s| && (forall i :: from <= i < r ==> IsNameChar(s[i])) && (r < |s| ==> !IsNameChar(s[r]))
    decreases |s| - from
  {
    if from < |s| && IsNameChar(s[from]) then NameEnd(s, from + 1) else from
  }

  /** The name of the placeholder that starts at `i`, if one does. */
  function NameAt(s: string, i: nat): (r: Option<string>)
    requires i <= |s|
    ensures r.Some? ==> i + |r.value| + 3 <= |s|
  {
    if i + 2 >= |s| || s[i] != '$' || s[i + 1] != '{' || !IsLetter(s[i + 2]) then None
    else
      var end := NameEnd(s, i + 2);
      if end < |s| && s[end] == '}' then Some(s[i + 2..end]) else None
  }

  /** `getParameters`: the names of the placeholders from left to right. */
  function GetParameters(s: string, from: nat := 0): seq<string>
    requires from <= |s|
    decreases |s| - from
  {
    if from == |s| then []
    else
      match NameAt(s, from)
      case None => GetParameters(s, from + 1)
      case Some(n) => [n] + GetParameters(s, from + |n| + 3)
  }

  /** The characters of a placeholder inside a text. */
  lemma OccursIff(s: string, n: string, i: nat)
    ensures OccursAt(s, Placeholder(n), i)
       <==> && i + |n| + 3 <= |s| && s[i] == '$' && s[i + 1] == '{' && s[i + |n| + 2] == '}'
            && s[i + 2..i + 2 + |n|] == n
  {
    if i + |n| + 3 <= |s| {
      var cut := s[i..i + |n| + 3];
      CutPlaceholder(cut, n);
      SliceOfSlice(s, i, i + |n| + 3, 2, |n| + 2);
    }
  }

  lemma CutPlaceholder(cut: string, n: string)
    requires |cut| == |n| + 3
    ensures cut == Placeholder(n) <==> cut[0] == '$' && cut[1] == '{' && cut[|n| + 2] == '}' && cut[2..|n| + 2] == n
  {
    assert cut == [cut[0], cut[1]] + cut[2..|n| + 2] + [cut[|n| + 2]];
    assert Placeholder(n)[2..|n| + 2] == n;
  }

  lemma NameAtIff(s: string, i: nat, n: string)
    requires i <= |s|
    ensures NameAt(s, i) == Some(n) <==> IsName(n) && OccursAt(s, Placeholder(n), i)
  {
    OccursIff(s, n, i);
    if IsName(n) && OccursAt(s, Placeholder(n), i) {
      assert forall k :: i + 2 <= k < i + 2 + |n| ==> s[k] == s[i + 2..i + 2 + |n|][k - i - 2];
      NameEndIs(s, i + 2, i + 2 + |n|);
    }
    if NameAt(s, i) == Some(n) {
      assert n[0] == s[i + 2];
    }
  }

  lemma {:induction false} NameEndIs(s: string, from: nat, end: nat)
    requires from <= end < |s| && !IsNameChar(s[end]) && forall k :: from <= k < end ==> IsNameChar(s[k])
    ensures NameEnd(s, from) == end
    decreases end - from
  {
    if from < end {
      NameEndIs(s, from + 1, end);
    }
  }

  /** `n` is mentioned: its placeholder occurs in the text, at `from` or behind it. */
  ghost predicate Mentions(s: string, n: string, from: nat := 0)
  {
    IsName(n) && exists i: nat :: from <= i && OccursAt(s, Placeholder(n), i)
  }

  /** Exactly the names whose placeholder occurs anywhere in the text are found. */
  lemma {:induction false} ParametersAreMentioned(s: string, from: nat, n: string)
    requires from <= |s|
    ensures n in GetParameters(s, from) <==> Mentions(s, n, from)
    decreases |s| - from
  {
    if from < |s| {
      var found := NameAt(s, from);
      var next := if found.Some? then from + |found.value| + 3 else from + 1;
      ParametersAreMentioned(s, next, n);
      MentionedNext(s, from, n);
      FoundNext(s, from, n);
    }
  }

  lemma FoundNext(s: string, from: nat, n: string)
    requires from < |s|
    ensures var found := NameAt(s, from);
            var next := if found.Some? then from + |found.value| + 3 else from + 1;
            n in GetParameters(s, from) <==> found == Some(n) || n in GetParameters(s, next)
  {
  }

  lemma MentionedNext(s: string, from: nat, n: string)
    requires from < |s|
    ensures var found := NameAt(s, from);
            var next := if found.Some? then from + |found.value| + 3 else from + 1;
            Mentions(s, n, from) <==> found == Some(n) || Mentions(s, n, next)
  {
    NameAtIff(s, from, n);
    if NameAt(s, from).Some? {
      NoneInside(s, NameAt(s, from).value, from, n);
    }
  }

  /** Placeholders do not overlap. */
  lemma NoneInside(s: string, found: string, from: nat, n: string)
    requires from <= |s| && NameAt(s, from) == Some(found)
    ensures forall i: nat :: from < i < from + |found| + 3 ==> !OccursAt(s, Placeholder(n), i)
  {
    NameAtIff(s, from, found);
    forall i: nat | from < i < from + |found| + 3
      ensures !OccursAt(s, Placeholder(n), i)
    {
      OccursIff(s, n, i);
      InsidePlaceholder(s, found, from, i);
    }
  }

  lemma InsidePlaceholder(s: string, n: string, from: nat, i: nat)
    requires IsName(n) && OccursAt(s, Placeholder(n), from) && from < i < from + |n| + 3
    ensures i < |s| && s[i] != '$'
  {
    OccursIff(s, n, from);
    if from + 2 <= i < from + 2 + |n| {
      assert s[i] == s[from + 2..from + 2 + |n|][i - from - 2];
    }
  }

  // ---------- stripped texts ----------

  /** `s.replace(target, "")` */
  function Remove(s: string, target: string): string
    requires target != ""
    decreases |s|
  {
    if s == "" then ""
    else if target <= s then Remove(s[|target|..], target)
    else [s[0]] + Remove(s[1..], target)
  }

  /** All opening and then all closing brackets are taken out. */
  function Strip(s: string): string
  {
    Remove(Remove(s, "${"), "}")
  }

  /** A character the regular expression `.` does not match. */
  predicate IsLineEnd(c: char)
  {
    var n := c as int;
    n == 0x0A || n == 0x0D || n == 0x85 || n == 0x2028 || n == 0x2029
  }

  /** The whole text has the form `${...}`. */
  predicate IsPlaceholder(s: string)
  {
    && |s| >= 3 && StartsWith(s, "${") && EndsWith(s, "}")
    && forall i :: 2 <= i < |s| - 1 ==> !IsLineEnd(s[i])
  }

  /** The param the validator takes a text to refer to, if any. */
  function ParamReferred(s: string): Option<string>
  {
    if IsPlaceholder(s) && !IsBlank(Some(Strip(s))) then Some(Strip(s)) else None
  }

  /** Nothing but brackets. */
  predicate OnlyBrackets(s: string)
  {
    s == "" || ("${" <= s && OnlyBrackets(s[2..])) || ("}" <= s && OnlyBrackets(s[1..]))
  }

  lemma OpensWith(s: string)
    ensures "${" <= s <==> |s| >= 2 && s[0] == '$' && s[1] == '{'
  {
    if |s| >= 2 {
      assert s[..2] == [s[0], s[1]];
    }
  }

  lemma ClosesFirst(s: string)
    ensures "}" <= s <==> |s| >= 1 && s[0] == '}'
  {
    if |s| >= 1 {
      assert s[..1] == [s[0]];
    }
  }

  lemma DropConcat(a: string, b: string, k: nat)
    requires k <= |a|
    ensures (a + b)[k..] == a[k..] + b
  {
  }

  lemma {:induction false} RemoveOpenConcat(a: string, b: string)
    requires a == "" || b == "" || a[|a| - 1] != '$' || b[0] != '{'
    ensures Remove(a + b, "${") == Remove(a, "${") + Remove(b, "${")
    decreases |a|
  {
    if a == "" {
      Empty(b);
    } else if b == "" {
      Empty(a);
      Empty(Remove(a, "${"));
    } else {
      OpensWith(a);
      OpensWith(a + b);
      DropConcat(a, b, 1);
      if "${" <= a {
        DropConcat(a, b, 2);
        RemoveOpenConcat(a[2..], b);
      } else {
        RemoveOpenConcat(a[1..], b);
        Assoc([a[0]], Remove(a[1..], "${"), Remove(b, "${"));
      }
    }
  }

  lemma {:induction false} RemoveCloseConcat(a: string, b: string)
    ensures Remove(a + b, "}") == Remove(a, "}") + Remove(b, "}")
    decreases |a|
  {
    if a == "" {
      Empty(b);
    } else {
      ClosesFirst(a);
      ClosesFirst(a + b);
      DropConcat(a, b, 1);
      RemoveCloseConcat(a[1..], b);
      Assoc([a[0]], Remove(a[1..], "}"), Remove(b, "}"));
    }
  }

  lemma StripConcat(a: string, b: string)
    requires a == "" || b == "" || a[|a| - 1] != '$' || b[0] != '{'
    ensures Strip(a + b) == Strip(a) + Strip(b)
  {
    RemoveOpenConcat(a, b);
    RemoveCloseConcat(Remove(a, "${"), Remove(b, "${"));
  }

  lemma {:induction false} RemoveNothing(s: string, target: string)
    requires target != "" && target[0] !in s
    ensures Remove(s, target) == s
    decreases |s|
  {
    if s != "" {
      RemoveNothing(s[1..], target);
      FirstOfPrefix(target, s);
    }
  }

  lemma FirstOfPrefix(target: string, s: string)
    requires target != "" && s != ""
    ensures target <= s ==> target[0] == s[0]
  {
  }

  lemma StripPlaceholder(n: string)
    requires IsName(n)
    ensures Strip(Placeholder(n)) == n
  {
    var rest := n + "}";
    assert Placeholder(n)[2..] == rest && "${" <= Placeholder(n);
    RemoveNothing(rest, "${");
    RemoveCloseConcat(n, "}");
    RemoveNothing(n, "}");
    assert Remove("}", "}") == "";
  }

  /** Stripping a text that mentions a name leaves the name between what is left of the rest. */
  lemma StripAround(s: string, n: string, i: nat)
    requires IsName(n) && OccursAt(s, Placeholder(n), i)
    ensures Strip(s) == Strip(s[..i]) + n + Strip(s[i + |n| + 3..])
  {
    var p, rest := Placeholder(n), s[i + |n| + 3..];
    assert s == s[..i] + (p + rest);
    assert p[|p| - 1] == '}' && (p + rest)[0] == '$';
    StripConcat(s[..i], p + rest);
    StripConcat(p, rest);
    StripPlaceholder(n);
    Assoc(Strip(s[..i]), n, Strip(rest));
  }

  lemma RemoveCloseFirst(c: char, rest: string)
    ensures Remove([c] + rest, "}") == if c == '}' then Remove(rest, "}") else [c] + Remove(rest, "}")
  {
    ClosesFirst([c] + rest);
    assert ([c] + rest)[1..] == rest;
  }

  /** Exactly texts of brackets are stripped to nothing. */
  lemma {:induction false} StrippedToNothing(s: string)
    ensures Strip(s) == "" <==> OnlyBrackets(s)
    decreases |s|
  {
    OpensWith(s);
    ClosesFirst(s);
    if s != "" {
      if "${" <= s {
        StrippedToNothing(s[2..]);
      } else {
        StrippedToNothing(s[1..]);
        RemoveCloseFirst(s[0], Remove(s[1..], "${"));
      }
    }
  }

  lemma {:induction false} BracketsOnly(s: string, k: nat)
    requires OnlyBrackets(s) && k < |s|
    ensures s[k] == '$' || s[k] == '{' || s[k] == '}'
    decreases |s|
  {
    OpensWith(s);
    ClosesFirst(s);
    if "${" <= s {
      if k >= 2 {
        BracketsOnly(s[2..], k - 2);
      }
    } else if k >= 1 {
      BracketsOnly(s[1..], k - 1);
    }
  }

  /** A mentioned name with nothing but brackets around it, in a text that opens and closes. */
  ghost predicate Alone(s: string, n: string, i: nat)
  {
    && IsName(n) && OccursAt(s, Placeholder(n), i)
    && StartsWith(s, "${") && EndsWith(s, "}") && OnlyBrackets(s[..i]) && OnlyBrackets(s[i + |n| + 3..])
  }

  /** The validator takes a text to refer to a name it mentions exactly if the name stands alone in it. */
  lemma ReferredIffAlone(s: string, n: string, i: nat)
    requires IsName(n) && OccursAt(s, Placeholder(n), i)
    ensures ParamReferred(s) == Some(n) <==> Alone(s, n, i)
  {
    StripAround(s, n, i);
    StrippedToNothing(s[..i]);
    StrippedToNothing(s[i + |n| + 3..]);
    if Alone(s, n, i) {
      forall k | 0 <= k < |s|
        ensures !IsLineEnd(s[k])
      {
        AloneChars(s, n, i, k);
      }
      OccursIff(s, n, i);
      assert Strip(s) == n && !IsWhitespace(n[0]);
    }
  }

  /** Outside of the name there are brackets. */
  lemma AloneChars(s: string, n: string, i: nat, k: nat)
    requires Alone(s, n, i) && k < |s|
    ensures if i + 2 <= k < i + 2 + |n| then IsNameChar(s[k]) else s[k] == '$' || s[k] == '{' || s[k] == '}'
  {
    OccursIff(s, n, i);
    if k < i {
      BracketsOnly(s[..i], k);
    } else if k >= i + |n| + 3 {
      BracketsOnly(s[i + |n| + 3..], k - (i + |n| + 3));
    } else if i + 2 <= k < i + 2 + |n| {
      assert s[k] == s[i + 2..i + 2 + |n|][k - i - 2];
    }
  }

  /** A name that stands alone is the only one mentioned. */
  lemma AloneIsOnly(s: string, n: string, i: nat, m: string, j: nat)
    requires Alone(s, n, i) && IsName(m) && OccursAt(s, Placeholder(m), j)
    ensures m == n && i == j
  {
    OccursIff(s, m, j);
    assert s[j + 2..j + 2 + |m|][0] == s[j + 2];
    AloneChars(s, n, i, j + 2);
    if i < j {
      InsidePlaceholder(s, n, i, j);
    }
    NameAtIff(s, i, n);
    NameAtIff(s, j, m);
  }

  // ---------- what the validator's view is worth ----------

  /** With these params available, the validator accepts a text as the value of a param. */
  predicate Accepted(s: string, available: set<string>)
  {
    ParamReferred(s).None? || ParamReferred(s).value in available
  }

  /** Every name the text mentions is available. */
  predicate Covered(s: string, available: set<string>)
  {
    forall n :: n in GetParameters(s) ==> n in available
  }

  /** The text mentions nothing, or one name with nothing but brackets around it. */
  ghost predicate Transparent(s: string)
  {
    GetParameters(s) == [] || exists n, i :: Alone(s, n, i)
  }

  /**
   Acceptance of a text means that all it mentions is available, whatever is available, exactly for texts that mention
   nothing or one name between brackets.
   */
  lemma AcceptanceCoversIff(s: string)
    ensures (forall available: set<string> :: Accepted(s, available) ==> Covered(s, available)) <==> Transparent(s)
  {
    if Transparent(s) {
      forall available: set<string> | Accepted(s, available)
        ensures Covered(s, available)
      {
        TransparentCovers(s, available);
      }
    } else {
      var n := GetParameters(s)[0];
      ParametersAreMentioned(s, 0, n);
      var i: nat :| OccursAt(s, Placeholder(n), i);
      ReferredIffAlone(s, n, i);
      var available: set<string> := if ParamReferred(s).Some? then {ParamReferred(s).value} else {};
      assert Accepted(s, available) && !Covered(s, available);
    }
  }

  lemma TransparentCovers(s: string, available: set<string>)
    requires Transparent(s) && Accepted(s, available)
    ensures Covered(s, available)
  {
    forall m | m in GetParameters(s)
      ensures m in available
    {
      ParametersAreMentioned(s, 0, m);
      var j: nat :| OccursAt(s, Placeholder(m), j);
      var n, i :| Alone(s, n, i);
      AloneIsOnly(s, n, i, m, j);
      ReferredIffAlone(s, n, i);
    }
  }

  /** Conversely, a text is rejected for lack of a param that it does not mention exactly if stripping makes one up. */
  lemma NeedlesslyRejectedIff(s: string)
    ensures (exists available: set<string> :: Covered(s, available) && !Accepted(s, available))
       <==> ParamReferred(s).Some? && ParamReferred(s).value !in GetParameters(s)
  {
    if ParamReferred(s).Some? && ParamReferred(s).value !in GetParameters(s) {
      var available := set n | n in GetParameters(s);
      assert Covered(s, available) && !Accepted(s, available);
    }
  }

  /** A placeholder behind any other text escapes: the value is accepted although nothing is available. */
  lemma EmbeddedEscapes(before: string, n: string)
    requires before != "" && before[0] != '$' && IsName(n)
    ensures Accepted(before + Placeholder(n), {}) && n in GetParameters(before + Placeholder(n))
  {
    var s := before + Placeholder(n);
    assert s[0..2][0] == before[0];
    Empty(s);
    PlaceholderBetween(s, before, n, "");
    ParametersAreMentioned(s, 0, n);
  }

  lemma TwoPlaceholders(s: string, a: string, b: string)
    requires IsName(a) && IsName(b) && s == Placeholder(a) + Placeholder(b)
    ensures GetParameters(s) == [a, b] && Strip(s) == a + b
  {
    FoundTwice(s, a, b);
    StripConcat(Placeholder(a), Placeholder(b));
    StripPlaceholder(a);
    StripPlaceholder(b);
  }

  lemma PlaceholderBetween(s: string, before: string, n: string, behind: string)
    requires s == before + Placeholder(n) + behind && IsName(n)
    ensures OccursAt(s, Placeholder(n), |before|) && NameAt(s, |before|) == Some(n)
  {
    NameAtIff(s, |before|, n);
  }

  lemma FoundTwice(s: string, a: string, b: string)
    requires IsName(a) && IsName(b) && s == Placeholder(a) + Placeholder(b)
    ensures GetParameters(s) == [a, b]
  {
    FirstPlaceholder(a, Placeholder(b));
    LastPlaceholder(Placeholder(a), b);
    TwoNames(s, |a| + 3, a, b);
  }

  lemma FirstPlaceholder(n: string, behind: string)
    requires IsName(n)
    ensures NameAt(Placeholder(n) + behind, 0) == Some(n)
  {
    assert "" + Placeholder(n) + behind == Placeholder(n) + behind;
    PlaceholderBetween(Placeholder(n) + behind, "", n, behind);
  }

  lemma LastPlaceholder(before: string, n: string)
    requires IsName(n)
    ensures NameAt(before + Placeholder(n), |before|) == Some(n)
  {
    Empty(before + Placeholder(n));
    PlaceholderBetween(before + Placeholder(n), before, n, "");
  }

  lemma TwoNames(s: string, k: nat, a: string, b: string)
    requires NameAt(s, 0) == Some(a) && k == |a| + 3 <= |s| && NameAt(s, k) == Some(b) && k + |b| + 3 == |s|
    ensures GetParameters(s) == [a, b]
  {
    assert GetParameters(s, |s|) == [];
    assert GetParameters(s, k) == [b] + [];
  }

  lemma PlaceholderChars(n: string, k: nat)
    requires IsName(n) && k < |n| + 3
    ensures !IsLineEnd(Placeholder(n)[k])
  {
    assert 2 <= k < |n| + 2 ==> Placeholder(n)[k] == n[k - 2];
  }

  /** Two placeholders in a row are taken for one name: available or not, the two names do not matter. */
  lemma JoinedNames(a: string, b: string, available: set<string>)
    requires IsName(a) && IsName(b)
    ensures GetParameters(Placeholder(a) + Placeholder(b)) == [a, b]
    ensures Accepted(Placeholder(a) + Placeholder(b), available) <==> a + b in available
  {
    TwoPlaceholders(Placeholder(a) + Placeholder(b), a, b);
    JoinedIsPlaceholder(a, b);
    assert (a + b)[0] == a[0] && !IsWhitespace(a[0]);
  }

  lemma JoinedIsPlaceholder(a: string, b: string)
    requires IsName(a) && IsName(b)
    ensures IsPlaceholder(Placeholder(a) + Placeholder(b))
  {
    NoLineEnds(a, b);
  }

  lemma NoLineEnds(a: string, b: string)
    requires IsName(a) && IsName(b)
    ensures var s := Placeholder(a) + Placeholder(b); forall k :: 0 <= k < |s| ==> !IsLineEnd(s[k])
  {
    var s := Placeholder(a) + Placeholder(b);
    forall k | 0 <= k < |s|
      ensures !IsLineEnd(s[k])
    {
      if k < |a| + 3 {
        PlaceholderChars(a, k);
      } else {
        PlaceholderChars(b, k - (|a| + 3));
      }
    }
  }
}
