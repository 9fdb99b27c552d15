/**
 * `TemplateEngine::render` of app/Services/TemplateEngine.php: every `{{key}}` of the template
 * is replaced by the variable's text, one variable after the other, then one `preg_replace`
 * pass removes what still looks like a placeholder. The file system is a parameter (whether
 * the path exists, and its contents); variable values are already texts.
 */
module TemplateEngine {
  import opened Wrappers
  import opened Strs

  /** `'{{' . $key . '}}'`. */
  function Placeholder(key: string): (p: string)
    ensures |p| == |key| + 4 && p[0] == '{' && p[1] == '{'
  {
    "{{" + key + "}}"
  }

  // ---------------------------------------------------------------- str_replace

  /** `str_replace($pat, $rep, $s)`: leftmost occurrences, not overlapping, replacements not rescanned. */
  function ReplaceAll(s: string, pat: string, rep: string): string
    requires |pat| > 0
    decreases |s|
  {
    if |s| < |pat| then s
    else if s[..|pat|] == pat then rep + ReplaceAll(s[|pat|..], pat, rep)
    else [s[0]] + ReplaceAll(s[1..], pat, rep)
  }

  /** No position of `s` starts an occurrence of `pat`. */
  predicate NoOccurrence(s: string, pat: string)
  {
    forall i :: 0 <= i <= |s| ==> !StartsWith(s[i..], pat)
  }

  /** `s` contains no "{{". */
  predicate NoOpen(s: string)
  {
    forall i :: 0 <= i < |s| - 1 ==> !(s[i] == '{' && s[i + 1] == '{')
  }

  /** Text without an occurrence is left unchanged. */
  lemma {:induction false} ReplaceAbsent(s: string, pat: string, rep: string)
    requires |pat| > 0 && NoOccurrence(s, pat)
    ensures ReplaceAll(s, pat, rep) == s
    decreases |s|
  {
    if |s| >= |pat| {
      assert s[0..] == s;
      assert !StartsWith(s, pat);
      forall i | 0 <= i <= |s[1..]| ensures !StartsWith(s[1..][i..], pat) {
        assert s[1..][i..] == s[i + 1..];
      }
      ReplaceAbsent(s[1..], pat, rep);
    }
  }

  /**
   * The first occurrence is the one replaced: text before it is kept, the occurrence becomes
   * `rep`, and the rest is processed after it.
   */
  lemma {:induction false} ReplaceFirst(a: string, b: string, pat: string, rep: string)
    requires |pat| > 0
    requires forall i :: 0 <= i < |a| ==> !StartsWith((a + pat + b)[i..], pat)
    ensures ReplaceAll(a + pat + b, pat, rep) == a + rep + ReplaceAll(b, pat, rep)
    decreases |a|
  {
    var s := a + pat + b;
    if a == [] {
      assert s == pat + b && s[..|pat|] == pat && s[|pat|..] == b;
    } else {
      assert s[0..] == s;
      assert s[1..] == a[1..] + pat + b;
      forall i | 0 <= i < |a[1..]| ensures !StartsWith((a[1..] + pat + b)[i..], pat) {
        assert (a[1..] + pat + b)[i..] == s[i + 1..];
      }
      ReplaceFirst(a[1..], b, pat, rep);
      assert [a[0]] + (a[1..] + rep + ReplaceAll(b, pat, rep)) == a + rep + ReplaceAll(b, pat, rep);
    }
  }

  /** Text without "{{" holds no placeholder. */
  lemma {:induction false} NoOpenNoPlaceholder(s: string, key: string)
    requires NoOpen(s)
    ensures NoOccurrence(s, Placeholder(key))
  {
    var p := Placeholder(key);
    forall i | 0 <= i <= |s| ensures !StartsWith(s[i..], p) {
      if |p| <= |s| - i {
        assert s[i..][..|p|][0] == s[i] && s[i..][..|p|][1] == s[i + 1];
      }
    }
  }

  // ---------------------------------------------------------------- the substitution loop

  /** The `foreach` of lines 26-39 as a function: each variable rewrites the result of the previous ones. */
  function Substitute(template: string, variables: seq<(string, string)>): string
    decreases |variables|
  {
    if variables == [] then template
    else Substitute(ReplaceAll(template, Placeholder(variables[0].0), variables[0].1), variables[1..])
  }

  /** Variables are processed in order: the first list, then the second. */
  lemma {:induction false} SubstituteAppend(t: string, xs: seq<(string, string)>, ys: seq<(string, string)>)
    ensures Substitute(t, xs + ys) == Substitute(Substitute(t, xs), ys)
    decreases |xs|
  {
    if xs == [] {
      assert xs + ys == ys;
    } else {
      assert (xs + ys)[0] == xs[0] && (xs + ys)[1..] == xs[1..] + ys;
      SubstituteAppend(ReplaceAll(t, Placeholder(xs[0].0), xs[0].1), xs[1..], ys);
    }
  }

  /** Text without "{{" goes through the substitutions unchanged. */
  lemma {:induction false} SubstituteNoOpen(t: string, variables: seq<(string, string)>)
    requires NoOpen(t)
    ensures Substitute(t, variables) == t
    decreases |variables|
  {
    if variables != [] {
      NoOpenNoPlaceholder(t, variables[0].0);
      ReplaceAbsent(t, Placeholder(variables[0].0), variables[0].1);
      SubstituteNoOpen(t, variables[1..]);
    }
  }

  /**
   * Substitution is sequential: a value inserted for an earlier key is itself rewritten by a
   * later key, so `{{a}}` with a = "{{b}}" and b = "X" renders as "X".
   */
  lemma {:induction false} SequentialRewrite()
    ensures Substitute("{{a}}", [("a", "{{b}}"), ("b", "X")]) == "X"
  {
    var vars := [("a", "{{b}}"), ("b", "X")];
    assert Placeholder("a") == "{{a}}" && Placeholder("b") == "{{b}}";
    ReplaceFirst("", "", "{{a}}", "{{b}}");
    assert "" + "{{a}}" + "" == "{{a}}";
    assert ReplaceAll("{{a}}", "{{a}}", "{{b}}") == "{{b}}";
    ReplaceFirst("", "", "{{b}}", "X");
    assert "" + "{{b}}" + "" == "{{b}}";
    assert ReplaceAll("{{b}}", "{{b}}", "X") == "X";
    assert vars[1..] == [("b", "X")] && vars[1..][1..] == [];
  }

  // ---------------------------------------------------------------- the cleanup pass

  /** The length of a match of `\{\{[^}]+\}\}` at the start of `s`, if there is one. */
  function MatchAt(s: string): (r: Option<nat>)
    ensures r.Some? ==> 5 <= r.value <= |s|
  {
    if |s| >= 2 && s[0] == '{' && s[1] == '{' then
      var n := RunUntil(s[2..], '}');
      if n >= 1 && n + 4 <= |s| && s[n + 2] == '}' && s[n + 3] == '}' then Some(n + 4) else None
    else None
  }

  /**
   * `preg_replace('/\{\{[^}]+\}\}/', '', $s)`: one left-to-right pass that deletes each match
   * and resumes after it, or keeps one character and tries again at the next. It never
   * lengthens the text, and a text it does not shorten it leaves unchanged.
   */
  function Cleanup(s: string): (r: string)
    ensures |r| <= |s|
    ensures |r| == |s| ==> r == s
    decreases |s|
  {
    if s == [] then []
    else match MatchAt(s)
      case Some(len) => Cleanup(s[len..])
      case None => [s[0]] + Cleanup(s[1..])
  }

  /** `s` holds "{{" + x + "}}" at position `i`, with x of length `n >= 1` and free of '}'. */
  predicate PlaceholderAt(s: string, i: nat, n: nat)
  {
    n >= 1 && i + n + 4 <= |s| && s[i] == '{' && s[i + 1] == '{'
    && (forall j :: i + 2 <= j < i + n + 2 ==> s[j] != '}')
    && s[i + n + 2] == '}' && s[i + n + 3] == '}'
  }

  /** `s` contains a substring `{{x}}` with x non-empty and free of '}'. */
  predicate HasPlaceholder(s: string)
  {
    exists i: nat, n: nat | i <= |s| && n <= |s| :: PlaceholderAt(s, i, n)
  }

  /** A placeholder at position `i` is a match of the pattern there. */
  lemma {:induction false} PlaceholderMatches(s: string, i: nat, n: nat)
    requires PlaceholderAt(s, i, n)
    ensures MatchAt(s[i..]) == Some(n + 4)
  {
    var t := s[i..][2..];
    assert forall j :: 0 <= j < n ==> t[j] == s[i + 2 + j];
    RunUntilExact(t, n);
  }

  lemma {:induction false} RunUntilExact(t: string, n: nat)
    requires n < |t| && t[n] == '}' && forall j :: 0 <= j < n ==> t[j] != '}'
    ensures RunUntil(t, '}') == n
  {
    if n > 0 {
      assert forall j :: 0 <= j < n - 1 ==> t[1..][j] == t[j + 1];
      RunUntilExact(t[1..], n - 1);
    }
  }

  /** A text the cleanup leaves unchanged has no match at any position. */
  lemma {:induction false} FixedHasNoMatch(s: string)
    requires Cleanup(s) == s
    ensures forall i :: 0 <= i <= |s| ==> MatchAt(s[i..]).None?
    decreases |s|
  {
    if s != [] {
      match MatchAt(s)
      case Some(len) => {
        assert false;
      }
      case None => {
        assert Cleanup(s) == [s[0]] + Cleanup(s[1..]);
        assert Cleanup(s[1..]) == s[1..];
        FixedHasNoMatch(s[1..]);
        forall i | 1 <= i <= |s| ensures MatchAt(s[i..]).None? {
          assert s[1..][i - 1..] == s[i..];
        }
        assert s[0..] == s;
      }
    }
  }

  /** A text the cleanup leaves unchanged holds no placeholder. */
  lemma {:induction false} FixedHasNoPlaceholder(s: string)
    requires Cleanup(s) == s
    ensures !HasPlaceholder(s)
  {
    FixedHasNoMatch(s);
    forall i: nat, n: nat | i <= |s| && n <= |s| && PlaceholderAt(s, i, n) ensures false {
      PlaceholderMatches(s, i, n);
    }
  }

  /** Text without "{{" goes through the cleanup unchanged. */
  lemma {:induction false} CleanupNoOpen(s: string)
    requires NoOpen(s)
    ensures Cleanup(s) == s
    decreases |s|
  {
    if s != [] {
      assert MatchAt(s).None?;
      assert NoOpen(s[1..]) by {
        forall i | 0 <= i < |s[1..]| - 1 ensures !(s[1..][i] == '{' && s[1..][i + 1] == '{') {
          assert s[1..][i] == s[i + 1] && s[1..][i + 1] == s[i + 2];
        }
      }
      CleanupNoOpen(s[1..]);
    }
  }

  /**
   * One pass is not enough: removing the inner `{{y}}` of "{{x}{{y}}}" joins "{{x}" and "}"
   * into the placeholder "{{x}}", which the pass has already gone by.
   */
  lemma {:induction false} CleanupLeavesPlaceholder()
    ensures Cleanup("{{x}{{y}}}") == "{{x}}"
    ensures HasPlaceholder(Cleanup("{{x}{{y}}}"))
  {
    var s := "{{x}{{y}}}";
    SampleHeadNoMatch();
    assert s[1..] == "{x}{{y}}}";
    CleanupSampleMiddle();
    CleanupKeeps(s);
    SamplePlaceholder();
  }

  /** No match starts at the sample's first '{': the run after "{{" stops at "x}". */
  lemma {:induction false} SampleHeadNoMatch()
    ensures MatchAt("{{x}{{y}}}").None?
  {
    var t := "{{x}{{y}}}"[2..];
    assert t[0] == 'x' && t[1..][0] == '}';
    assert RunUntil(t[1..], '}') == 0;
    assert RunUntil(t, '}') == 1;
  }

  /** The text the sample is cleaned to is itself a placeholder. */
  lemma {:induction false} SamplePlaceholder()
    ensures HasPlaceholder("{{x}}")
  {
    assert PlaceholderAt("{{x}}", 0, 1);
  }

  /** After the first '{' of the sample: no match starts at "{x", so '{' is kept. */
  lemma {:induction false} CleanupSampleMiddle()
    ensures Cleanup("{x}{{y}}}") == "{x}}"
  {
    var s := "{x}{{y}}}";
    assert s[1..] == "x}{{y}}}";
    CleanupSampleX();
    CleanupKeeps(s);
    assert ['{'] + "x}}" == "{x}}";
  }

  /** No match starts at "x}", so 'x' is kept before the tail. */
  lemma {:induction false} CleanupSampleX()
    ensures Cleanup("x}{{y}}}") == "x}}"
  {
    var t := "x}{{y}}}";
    assert t[1..] == "}{{y}}}";
    CleanupSampleTail();
    CleanupKeeps(t);
    assert ['x'] + "}}" == "x}}";
  }

  /** The tail of the sample: a stray '}' is kept, then "{{y}}" is deleted and its last '}' kept. */
  lemma {:induction false} CleanupSampleTail()
    ensures Cleanup("}{{y}}}") == "}}"
  {
    var t := "{{y}}}";
    assert Cleanup(t) == "}" by {
      assert RunUntil(t[2..], '}') == 1;
      assert MatchAt(t) == Some(5);
      assert t[5..] == "}";
      assert Cleanup("}") == "}";
    }
    assert "}{{y}}}"[1..] == t;
    CleanupKeeps("}{{y}}}");
  }

  /** Where no match starts, the pass keeps the first character and goes on with the rest. */
  lemma {:induction false} CleanupKeeps(s: string)
    requires s != [] && MatchAt(s).None?
    ensures Cleanup(s) == [s[0]] + Cleanup(s[1..])
  {
  }

  /**
   * The cleanup the comment of line 41 intends: repeat the pass until nothing changes. The
   * result holds no placeholder, and text without "{{" is unchanged.
   */
  function StripPlaceholders(s: string): (r: string)
    ensures !HasPlaceholder(r)
    ensures |r| <= |s|
    ensures NoOpen(s) ==> r == s
    decreases |s|
  {
    var t := Cleanup(s);
    if t == s then FixedHasNoPlaceholder(s); s
    else
      assert !NoOpen(s) by {
        if NoOpen(s) {
          CleanupNoOpen(s);
        }
      }
      StripPlaceholders(t)
  }

  // ---------------------------------------------------------------- render

  /** `render` as written: the exception for a missing path, otherwise substitution and one cleanup pass. */
  function RenderSpec(templateExists: bool, path: string, contents: string, variables: seq<(string, string)>): (r: Result<string, string>)
    ensures r.Failure? <==> !templateExists
  {
    if !templateExists then Failure("Template non trouvé : " + path)
    else Success(Cleanup(Substitute(contents, variables)))
  }

  /** `render` with the repeated cleanup: no placeholder survives. */
  function RenderCorrected(templateExists: bool, path: string, contents: string, variables: seq<(string, string)>): (r: Result<string, string>)
    ensures r.Failure? <==> !templateExists
    ensures r.Success? ==> !HasPlaceholder(r.value)
  {
    if !templateExists then Failure("Template non trouvé : " + path)
    else Success(StripPlaceholders(Substitute(contents, variables)))
  }

  /** Lines 17-45; `templateExists` is `file_exists($templatePath)` and `contents` what `file_get_contents` reads. */
  method Render(templateExists: bool, path: string, contents: string, variables: seq<(string, string)>)
    returns (r: Result<string, string>)
    ensures r == RenderSpec(templateExists, path, contents, variables)
  {
    if !templateExists {
      return Failure("Template non trouvé : " + path);
    }
    var template := contents;
    for i := 0 to |variables|
      invariant Substitute(template, variables[i..]) == Substitute(contents, variables)
    {
      assert variables[i..][0] == variables[i] && variables[i..][1..] == variables[i + 1..];
      var key := variables[i].0;
      var value := variables[i].1;
      template := ReplaceAll(template, "{{" + key + "}}", value);
    }
    assert variables[|variables|..] == [];
    template := Cleanup(template);
    r := Success(template);
  }

  /** A template without "{{" is returned unchanged, whatever the variables, by both versions. */
  lemma {:induction false} RenderNoOpen(path: string, contents: string, variables: seq<(string, string)>)
    requires NoOpen(contents)
    ensures RenderSpec(true, path, contents, variables) == Success(contents)
    ensures RenderCorrected(true, path, contents, variables) == Success(contents)
  {
    SubstituteNoOpen(contents, variables);
    CleanupNoOpen(contents);
  }

  /** As written, a render can still return a placeholder: "{{x}{{y}}}" with no variables gives "{{x}}". */
  lemma {:induction false} RenderKeepsPlaceholder()
    ensures RenderSpec(true, "", "{{x}{{y}}}", []) == Success("{{x}}")
    ensures HasPlaceholder("{{x}}")
  {
    CleanupLeavesPlaceholder();
  }
}
