/** The id a header without one receives: its text lower-cased, every run
    of characters outside `[a-z0-9]` turned into one `-`, then a `-` at the
    very start and one at the very end dropped. */
module Slugs {

  /** The characters `[a-z0-9]` that a slug keeps. */
  predicate IsSlugChar(c: char)
  {
    'a' <= c <= 'z' || '0' <= c <= '9'
  }

  /** Lower-casing of one character; only ASCII letters change. */
  function LowerChar(c: char): char
  {
    if 'A' <= c <= 'Z' then (c as int + 32) as char else c
  }

  function Lower(s: string): (r: string)
    ensures |r| == |s|
    ensures forall i :: 0 <= i < |s| ==> r[i] == LowerChar(s[i])
  {
    seq(|s|, i requires 0 <= i < |s| => LowerChar(s[i]))
  }

  /** The slug characters of `s`, in order. */
  function Alnum(s: string): string
  {
    if s == [] then [] else (if IsSlugChar(s[0]) then [s[0]] else []) + Alnum(s[1..])
  }

  lemma {:induction false} AlnumAppend(x: string, y: string)
    ensures Alnum(x + y) == Alnum(x) + Alnum(y)
  {
    if x == [] {
      assert x + y == y;
    } else {
      var h := if IsSlugChar(x[0]) then [x[0]] else [];
      var xy := x + y;
      assert xy[0] == x[0];
      assert xy[1..] == x[1..] + y;
      assert Alnum(xy) == h + Alnum(x[1..] + y);
      AlnumAppend(x[1..], y);
      assert Alnum(x) == h + Alnum(x[1..]);
      assert h + (Alnum(x[1..]) + Alnum(y)) == (h + Alnum(x[1..])) + Alnum(y);
    }
  }

  /** Drops the leading run of non-slug characters. */
  function SkipSeparators(s: string): (r: string)
    ensures |r| <= |s|
    ensures r == [] || IsSlugChar(r[0])
  {
    if s == [] || IsSlugChar(s[0]) then s else SkipSeparators(s[1..])
  }

  /** What is skipped is a run of non-slug characters in front of the
      rest. */
  lemma {:induction false} SkipSeparatorsFacts(s: string)
    ensures s[|s| - |SkipSeparators(s)|..] == SkipSeparators(s)
    ensures forall i :: 0 <= i < |s| - |SkipSeparators(s)| ==> !IsSlugChar(s[i])
    decreases |s|
  {
    if s != [] && !IsSlugChar(s[0]) {
      var t := s[1..];
      var r := SkipSeparators(s);
      assert r == SkipSeparators(t);
      SkipSeparatorsFacts(t);
      assert s[|s| - |r|..] == t[|t| - |r|..];
      forall i | 0 <= i < |s| - |r| ensures !IsSlugChar(s[i]) {
        if i > 0 {
          assert s[i] == t[i - 1];
        }
      }
    }
  }

  /** Skipping separators drops no slug character. */
  lemma {:induction false} SkipSeparatorsAlnum(s: string)
    ensures Alnum(SkipSeparators(s)) == Alnum(s)
    decreases |s|
  {
    if s != [] && !IsSlugChar(s[0]) {
      var t := s[1..];
      assert SkipSeparators(s) == SkipSeparators(t);
      assert Alnum(s) == Alnum(t);
      SkipSeparatorsAlnum(t);
    }
  }

  /** The leading run of slug characters. */
  function TakeWord(s: string): (w: string)
    ensures |w| <= |s| && w == s[..|w|]
    ensures s != [] && IsSlugChar(s[0]) ==> w != []
  {
    if s == [] || !IsSlugChar(s[0]) then [] else [s[0]] + TakeWord(s[1..])
  }

  /** The word is made of slug characters and stops at a separator or at the
      end. */
  lemma {:induction false} TakeWordFacts(s: string)
    ensures forall i :: 0 <= i < |TakeWord(s)| ==> IsSlugChar(s[i])
    ensures |TakeWord(s)| < |s| ==> !IsSlugChar(s[|TakeWord(s)|])
    decreases |s|
  {
    if s != [] && IsSlugChar(s[0]) {
      TakeWordFacts(s[1..]);
    }
  }

  /** Every character is a slug character or `-`. */
  predicate OnlySlugChars(s: string)
  {
    forall i :: 0 <= i < |s| ==> IsSlugChar(s[i]) || s[i] == '-'
  }

  /** No two `-` next to each other. */
  predicate NoDoubleDash(s: string)
  {
    forall j :: 0 < j < |s| ==> s[j - 1] != '-' || s[j] != '-'
  }

  /** `replace(/[^a-z0-9]+/g, '-')`: each maximal run of non-slug characters
      becomes a single `-`. */
  function DashRuns(s: string): string
    decreases |s|
  {
    if s == [] then []
    else if IsSlugChar(s[0]) then [s[0]] + DashRuns(s[1..])
    else "-" + DashRuns(SkipSeparators(s[1..]))
  }

  /** The result holds only slug characters and single dashes, starts with a
      dash exactly when the text starts with a separator, and keeps the
      slug characters of the text in order; from its first slug character
      on, it is the words of the text joined by single dashes, with one
      dash more when the text ends in a separator; a leading run of
      separators becomes one dash. */
  lemma {:induction false} DashRunsFacts(s: string)
    ensures OnlySlugChars(DashRuns(s)) && NoDoubleDash(DashRuns(s))
    ensures DashRuns(s) != [] ==> s != [] && (DashRuns(s)[0] == '-' <==> !IsSlugChar(s[0]))
    ensures Alnum(DashRuns(s)) == Alnum(s)
    ensures s == [] || IsSlugChar(s[0]) ==>
              DashRuns(s) == Join(Words(s)) + (if EndsInSeparator(s) then "-" else "")
    ensures s != [] && !IsSlugChar(s[0]) ==> DashRuns(s) == "-" + DashRuns(SkipSeparators(s))
  {
    DashRunsShape(s);
    if s == [] || IsSlugChar(s[0]) {
      DashRunsJoinsWords(s);
    } else {
      SeparatorRun(s);
    }
  }

  lemma {:induction false} DashRunsShape(s: string)
    ensures OnlySlugChars(DashRuns(s)) && NoDoubleDash(DashRuns(s))
    ensures DashRuns(s) != [] ==> s != [] && (DashRuns(s)[0] == '-' <==> !IsSlugChar(s[0]))
    ensures Alnum(DashRuns(s)) == Alnum(s)
    decreases |s|
  {
    if s != [] {
      var r := DashRuns(s);
      var t := if IsSlugChar(s[0]) then s[1..] else SkipSeparators(s[1..]);
      var c := if IsSlugChar(s[0]) then s[0] else '-';
      DashRunsShape(t);
      var rest := DashRuns(t);
      assert r == [c] + rest;
      forall j | 0 < j < |r| ensures r[j - 1] != '-' || r[j] != '-' {
        if j > 1 {
          assert r[j - 1] == rest[j - 2] && r[j] == rest[j - 1];
        }
      }
      AlnumAppend([c], rest);
      AlnumAppend([s[0]], s[1..]);
      assert s == [s[0]] + s[1..];
      if !IsSlugChar(s[0]) {
        SkipSeparatorsAlnum(s[1..]);
      }
    }
  }

  /** `replace(/(^-|-$)/g, '')`: one `-` at the start and one at the end are
      removed. */
  function TrimDash(s: string): string
  {
    var a := if s != [] && s[0] == '-' then s[1..] else s;
    if a != [] && a[|a| - 1] == '-' then a[..|a| - 1] else a
  }

  /** The generated header id. */
  function Slug(text: string): string
  {
    TrimDash(DashRuns(Lower(text)))
  }

  /** A well-formed slug: slug characters separated by single dashes, with
      no dash at either end. */
  predicate IsSlug(s: string)
  {
    && OnlySlugChars(s)
    && NoDoubleDash(s)
    && (s != [] ==> s[0] != '-' && s[|s| - 1] != '-')
  }

  /** Trimming keeps a well-formed slug and every letter and digit, and
      removes at most one dash at each end and nothing else. */
  lemma TrimDashFacts(s: string)
    requires OnlySlugChars(s) && NoDoubleDash(s)
    ensures IsSlug(TrimDash(s))
    ensures Alnum(TrimDash(s)) == Alnum(s)
    ensures exists p, q :: (p == "" || p == "-") && (q == "" || q == "-") && s == p + TrimDash(s) + q
  {
    TrimDashShape(s);
    TrimDashEnds(s);
  }

  lemma TrimDashShape(s: string)
    requires OnlySlugChars(s) && NoDoubleDash(s)
    ensures IsSlug(TrimDash(s))
    ensures Alnum(TrimDash(s)) == Alnum(s)
  {
    var a := if s != [] && s[0] == '-' then s[1..] else s;
    if s != [] && s[0] == '-' {
      assert s == "-" + a;
      AlnumAppend("-", a);
    }
    if a != [] && a[|a| - 1] == '-' {
      var b := a[..|a| - 1];
      assert a == b + "-";
      AlnumAppend(b, "-");
    }
  }

  lemma TrimDashEnds(s: string)
    ensures exists p, q :: (p == "" || p == "-") && (q == "" || q == "-") && s == p + TrimDash(s) + q
  {
    var a := if s != [] && s[0] == '-' then s[1..] else s;
    var p := if s != [] && s[0] == '-' then "-" else "";
    var q := if a != [] && a[|a| - 1] == '-' then "-" else "";
    assert s == p + a;
    assert a == TrimDash(s) + q;
    assert s == p + TrimDash(s) + q;
  }

  /** A generated id only ever holds `[a-z0-9]` and single inner dashes. */
  lemma SlugIsSlug(text: string)
    ensures IsSlug(Slug(text))
  {
    DashRunsShape(Lower(text));
    TrimDashFacts(DashRuns(Lower(text)));
  }

  /** The generated id keeps every letter and digit of the lower-cased text,
      in order, and nothing else but dashes. */
  lemma SlugKeepsAlnum(text: string)
    ensures Alnum(Slug(text)) == Alnum(Lower(text))
  {
    DashRunsShape(Lower(text));
    TrimDashFacts(DashRuns(Lower(text)));
  }

  lemma {:induction false} AlnumEmpty(s: string)
    ensures Alnum(s) == [] <==> forall i :: 0 <= i < |s| ==> !IsSlugChar(s[i])
  {
    if s != [] {
      AlnumEmpty(s[1..]);
      if Alnum(s) == [] {
        forall i | 0 <= i < |s| ensures !IsSlugChar(s[i]) {
          if i > 0 {
            assert s[i] == s[1..][i - 1];
          }
        }
      }
    }
  }

  /** The generated id is empty exactly when the text holds no ASCII letter
      or digit. */
  lemma SlugEmptyIff(text: string)
    ensures Slug(text) == [] <==> forall i :: 0 <= i < |text| ==> !IsSlugChar(LowerChar(text[i]))
  {
    var s := Slug(text);
    SlugIsSlug(text);
    SlugKeepsAlnum(text);
    AlnumEmpty(Lower(text));
    AlnumEmpty(s);
    if s != [] {
      assert IsSlugChar(s[0]);
    }
  }

  /** A string that is already a slug is its own slug, so generating twice
      gives the same id. */
  lemma SlugFixesSlugs(s: string)
    requires IsSlug(s)
    ensures Slug(s) == s
  {
    LowerFixes(s);
    DashRunsFixes(s);
    TrimDashFixes(s);
  }

  lemma LowerFixes(s: string)
    requires OnlySlugChars(s)
    ensures Lower(s) == s
  {
    var l := Lower(s);
    forall i | 0 <= i < |s| ensures l[i] == s[i] {
      assert IsSlugChar(s[i]) || s[i] == '-';
    }
  }

  lemma TrimDashFixes(s: string)
    requires IsSlug(s)
    ensures TrimDash(s) == s
  {
  }

  lemma SlugIdempotent(text: string)
    ensures Slug(Slug(text)) == Slug(text)
  {
    SlugIsSlug(text);
    SlugFixesSlugs(Slug(text));
  }

  lemma {:induction false} DashRunsFixes(s: string)
    requires OnlySlugChars(s) && NoDoubleDash(s)
    ensures DashRuns(s) == s
    decreases |s|
  {
    if s != [] {
      var t := s[1..];
      assert OnlySlugChars(t) && NoDoubleDash(t) by {
        forall j | 0 < j < |t| ensures t[j - 1] != '-' || t[j] != '-' {
          assert t[j - 1] == s[j] && t[j] == s[j + 1];
        }
      }
      if !IsSlugChar(s[0]) {
        assert t == [] || IsSlugChar(t[0]) by {
          if t != [] {
            assert s[0] == '-' && s[1] == t[0];
          }
        }
        assert SkipSeparators(t) == t;
        assert s[0] == '-';
      }
      DashRunsFixes(t);
      assert s == [s[0]] + t;
    }
  }

  // ---------------------------------------------------------------------
  // An independent description: the words of the text joined by dashes

  /** The maximal runs of slug characters of `s`, in order. */
  function Words(s: string): seq<string>
    decreases |s|
  {
    var u := SkipSeparators(s);
    if u == [] then []
    else
      var w := TakeWord(u);
      [w] + Words(u[|w|..])
  }

  function Join(ws: seq<string>): string
  {
    if ws == [] then []
    else if |ws| == 1 then ws[0]
    else ws[0] + "-" + Join(ws[1..])
  }

  /** The words joined by dashes start and end with a slug character, if
      they are not empty. */
  lemma {:induction false} JoinedWordsEnds(s: string)
    ensures var j := Join(Words(s)); j == [] || (IsSlugChar(j[0]) && IsSlugChar(j[|j| - 1]))
    decreases |s|
  {
    var u := SkipSeparators(s);
    if u != [] {
      var w := TakeWord(u);
      var rest := u[|w|..];
      TakeWordFacts(u);
      JoinedWordsEnds(rest);
      assert Words(s) == [w] + Words(rest);
      if Words(rest) != [] {
        var j := Join(Words(s));
        assert j == w + "-" + Join(Words(rest));
        assert j[0] == w[0];
      }
    }
  }

  /** The text ends in a non-slug character. */
  predicate EndsInSeparator(s: string)
  {
    s != [] && !IsSlugChar(s[|s| - 1])
  }

  lemma {:induction false} DashRunsOfWord(w: string, rest: string)
    requires forall i :: 0 <= i < |w| ==> IsSlugChar(w[i])
    ensures DashRuns(w + rest) == w + DashRuns(rest)
    decreases |w|
  {
    if w != [] {
      assert (w + rest)[0] == w[0];
      assert (w + rest)[1..] == w[1..] + rest;
      DashRunsOfWord(w[1..], rest);
      assert w == [w[0]] + w[1..];
    } else {
      assert w + rest == rest;
    }
  }

  /** A run of separators becomes one dash and separates no words. */
  lemma SeparatorRun(s: string)
    requires s != [] && !IsSlugChar(s[0])
    ensures DashRuns(s) == "-" + DashRuns(SkipSeparators(s))
    ensures Words(s) == Words(SkipSeparators(s))
    ensures EndsInSeparator(s) == (SkipSeparators(s) == [] || EndsInSeparator(SkipSeparators(s)))
  {
    var u := SkipSeparators(s);
    assert u == SkipSeparators(s[1..]);
    SkipSeparatorsFacts(s);
    if u != [] {
      assert SkipSeparators(u) == u;
      assert s[|s| - 1] == u[|u| - 1];
    } else {
      assert !IsSlugChar(s[|s| - 1]);
    }
  }

  /** Starting at a slug character (or at the end), the dash runs are the
      words joined by dashes, with one more dash when the text ends in a
      separator. */
  lemma {:induction false} DashRunsJoinsWords(s: string)
    requires s == [] || IsSlugChar(s[0])
    ensures DashRuns(s) == Join(Words(s)) + (if EndsInSeparator(s) then "-" else "")
    decreases |s|, 1
  {
    if s != [] {
      FirstWord(s);
      var w := TakeWord(s);
      if s[|w|..] == [] {
        assert Words(s) == [w];
      } else {
        WordThenSeparators(s);
      }
    }
  }

  /** The step of DashRunsJoinsWords where the first word is followed by a
      run of separators. */
  lemma {:induction false} WordThenSeparators(s: string)
    requires s != [] && IsSlugChar(s[0])
    requires |TakeWord(s)| < |s|
    ensures DashRuns(s) == Join(Words(s)) + (if EndsInSeparator(s) then "-" else "")
    decreases |s|, 0
  {
    FirstWord(s);
    var w := TakeWord(s);
    var rest := s[|w|..];
    SeparatorRun(rest);
    var u := SkipSeparators(rest);
    if u != [] {
      DashRunsJoinsWords(u);
      var core := Join(Words(u));
      var tail := if EndsInSeparator(u) then "-" else "";
      assert Words(u) != [] by {
        assert SkipSeparators(u) == u;
      }
      assert Join([w] + Words(u)) == w + "-" + core;
      Regroup(w, core, tail);
    } else {
      assert Words(s) == [w];
      assert DashRuns(s) == w + "-";
    }
  }

  lemma Regroup(w: string, core: string, tail: string)
    ensures w + ("-" + (core + tail)) == (w + "-" + core) + tail
  {
  }

  /** A text that starts with a slug character starts with its first word,
      followed by a separator or by nothing. */
  lemma FirstWord(s: string)
    requires s != [] && IsSlugChar(s[0])
    ensures var w := TakeWord(s); var rest := s[|w|..];
      && Words(s) == [w] + Words(rest)
      && DashRuns(s) == w + DashRuns(rest)
      && (rest == [] ==> Words(rest) == [] && !EndsInSeparator(s))
      && (rest != [] ==> !IsSlugChar(rest[0]) && EndsInSeparator(s) == EndsInSeparator(rest))
  {
    assert SkipSeparators(s) == s;
    var w := TakeWord(s);
    TakeWordFacts(s);
    var rest := s[|w|..];
    assert Words(s) == [w] + Words(rest);
    assert s == w + rest;
    DashRunsOfWord(w, rest);
    if rest == [] {
      assert SkipSeparators(rest) == [];
      assert s[|s| - 1] == w[|w| - 1];
    } else {
      EndsLikeSuffix(s, |w|);
    }
  }

  /** A text ends in a separator exactly when each of its non-empty suffixes
      does. */
  lemma EndsLikeSuffix(s: string, k: nat)
    requires k < |s|
    ensures EndsInSeparator(s) == EndsInSeparator(s[k..])
  {
    assert s[k..][|s| - k - 1] == s[|s| - 1];
  }

  /** Trimming removes exactly the optional dashes around words joined by
      dashes. */
  lemma TrimDashAround(core: string, tail: string)
    requires core == [] || (core[0] != '-' && core[|core| - 1] != '-')
    requires tail == "" || tail == "-"
    ensures TrimDash(core + tail) == core
    ensures TrimDash("-" + (core + tail)) == core
  {
    var a := core + tail;
    if tail == "-" {
      assert a[..|a| - 1] == core;
    } else {
      assert a == core;
    }
    assert ("-" + a)[1..] == a;
  }

  /** Dash runs, then trimming, give the words joined by dashes. */
  lemma TrimmedDashRunsAreJoinedWords(s: string)
    ensures TrimDash(DashRuns(s)) == Join(Words(s))
  {
    var u := SkipSeparators(s);
    var core := Join(Words(u));
    var tail := if EndsInSeparator(u) then "-" else "";
    JoinedWordsEnds(u);
    DashRunsJoinsWords(u);
    TrimDashAround(core, tail);
    if s == [] || IsSlugChar(s[0]) {
      assert u == s;
    } else {
      SeparatorRun(s);
    }
  }

  /** The generated id is the words of the lower-cased text (its maximal
      runs of `[a-z0-9]`) joined by single dashes. */
  lemma SlugIsJoinedWords(text: string)
    ensures Slug(text) == Join(Words(Lower(text)))
  {
    TrimmedDashRunsAreJoinedWords(Lower(text));
  }
}
