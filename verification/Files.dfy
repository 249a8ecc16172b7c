/** Glob patterns compiled to SQL LIKE patterns (`_glob_to_like_pattern` and `search_files` in models/files.py). */
module Files {

  /** `str.replace` of a single character. */
  function Replace(s: string, c: char, sub: string): (r: string) {
    if s == [] then [] else (if s[0] == c then sub else [s[0]]) + Replace(s[1..], c, sub)
  }

  function GlobToLike(glob: string): (r: string) {
    var escaped := Replace(Replace(Replace(glob, '\\', "\\\\"), '%', "\\%"), '_', "\\_");
    Replace(Replace(escaped, '*', "%"), '?', "_")
  }

  /** One character of the glob, translated on its own. */
  function LikeOf(c: char): (r: string) {
    match c
    case '\\' => "\\\\"
    case '%' => "\\%"
    case '_' => "\\_"
    case '*' => "%"
    case '?' => "_"
    case _ => [c]
  }

  function Translate(glob: string): (r: string) {
    if glob == [] then [] else LikeOf(glob[0]) + Translate(glob[1..])
  }

  lemma {:induction false} ReplaceConcat(s: string, t: string, c: char, sub: string)
    ensures Replace(s + t, c, sub) == Replace(s, c, sub) + Replace(t, c, sub)
  {
    if s == [] {
      assert s + t == t;
    } else {
      assert (s + t)[1..] == s[1..] + t;
      ReplaceConcat(s[1..], t, c, sub);
    }
  }

  lemma ReplaceOne(x: char, c: char, sub: string)
    ensures Replace([x], c, sub) == if x == c then sub else [x]
  {
  }

  lemma ReplaceTwo(x: char, y: char, c: char, sub: string)
    ensures Replace([x, y], c, sub) == (if x == c then sub else [x]) + (if y == c then sub else [y])
  {
    assert [x, y][1..] == [y];
    ReplaceOne(y, c, sub);
  }

  /** The five passes over a single character do what its own translation says: no pass touches what an
      earlier one produced, except to convert wildcards. */
  lemma GlobToLikeOne(x: char)
    ensures GlobToLike([x]) == LikeOf(x)
  {
    ReplaceOne(x, '\\', "\\\\");
    if x == '\\' {
      ReplaceTwo('\\', '\\', '%', "\\%");
      ReplaceTwo('\\', '\\', '_', "\\_");
      ReplaceTwo('\\', '\\', '*', "%");
      ReplaceTwo('\\', '\\', '?', "_");
    } else {
      ReplaceOne(x, '%', "\\%");
      if x == '%' {
        ReplaceTwo('\\', '%', '_', "\\_");
        ReplaceTwo('\\', '%', '*', "%");
        ReplaceTwo('\\', '%', '?', "_");
      } else {
        ReplaceOne(x, '_', "\\_");
        if x == '_' {
          ReplaceTwo('\\', '_', '*', "%");
          ReplaceTwo('\\', '_', '?', "_");
        } else {
          ReplaceOne(x, '*', "%");
          ReplaceOne(x, '?', "_");
          ReplaceOne('%', '?', "_");
        }
      }
    }
  }

  lemma GlobToLikeConcat(s: string, t: string)
    ensures GlobToLike(s + t) == GlobToLike(s) + GlobToLike(t)
  {
    ReplaceConcat(s, t, '\\', "\\\\");
    var s1, t1 := Replace(s, '\\', "\\\\"), Replace(t, '\\', "\\\\");
    ReplaceConcat(s1, t1, '%', "\\%");
    var s2, t2 := Replace(s1, '%', "\\%"), Replace(t1, '%', "\\%");
    ReplaceConcat(s2, t2, '_', "\\_");
    var s3, t3 := Replace(s2, '_', "\\_"), Replace(t2, '_', "\\_");
    ReplaceConcat(s3, t3, '*', "%");
    ReplaceConcat(Replace(s3, '*', "%"), Replace(t3, '*', "%"), '?', "_");
  }

  /** The five sequential replacements are one translation, character by character. */
  lemma {:induction false} FivePassesAreOne(glob: string)
    ensures GlobToLike(glob) == Translate(glob)
  {
    if glob == [] {
    } else {
      assert glob == [glob[0]] + glob[1..];
      GlobToLikeConcat([glob[0]], glob[1..]);
      GlobToLikeOne(glob[0]);
      FivePassesAreOne(glob[1..]);
    }
  }

  /** LIKE matching with escape character backslash (section 8.5 of ISO/IEC 9075-2), characters compared
      after `fold` (the identity for LIKE, lower case for ILIKE). */
  predicate LikeMatch(p: string, s: string, fold: char -> char)
    decreases |p| + |s|
  {
    if p == [] then s == []
    else if p[0] == '\\' then |p| > 1 && s != [] && fold(p[1]) == fold(s[0]) && LikeMatch(p[2..], s[1..], fold)
    else if p[0] == '%' then LikeMatch(p[1..], s, fold) || (s != [] && LikeMatch(p, s[1..], fold))
    else if p[0] == '_' then s != [] && LikeMatch(p[1..], s[1..], fold)
    else s != [] && fold(p[0]) == fold(s[0]) && LikeMatch(p[1..], s[1..], fold)
  }

  /** Glob matching: `*` is any sequence of characters, `?` any one character, the rest stands for itself. */
  predicate GlobMatch(g: string, s: string, fold: char -> char)
    decreases g
  {
    if g == [] then s == []
    else if g[0] == '*' then exists i :: 0 <= i <= |s| && GlobMatch(g[1..], s[i..], fold)
    else s != [] && (g[0] == '?' || fold(g[0]) == fold(s[0])) && GlobMatch(g[1..], s[1..], fold)
  }

  lemma LikePercent(p: string, s: string, fold: char -> char)
    requires p != [] && p[0] == '%'
    ensures LikeMatch(p, s, fold) <==> exists i :: 0 <= i <= |s| && LikeMatch(p[1..], s[i..], fold)
    decreases |s|
  {
    assert s[0..] == s;
    if s != [] {
      LikePercent(p, s[1..], fold);
      if LikeMatch(p, s[1..], fold) {
        var i :| 0 <= i <= |s[1..]| && LikeMatch(p[1..], s[1..][i..], fold);
        assert s[1..][i..] == s[i + 1..];
      }
      if i :| 0 <= i <= |s| && LikeMatch(p[1..], s[i..], fold) && i > 0 {
        assert s[1..][i - 1..] == s[i..];
      }
    }
  }

  lemma LikeStep(c: char, rest: string, s: string, fold: char -> char)
    requires c != '*'
    ensures LikeMatch(LikeOf(c) + rest, s, fold) <==>
            s != [] && (c == '?' || fold(c) == fold(s[0])) && LikeMatch(rest, s[1..], fold)
  {
  }

  /** The compiled pattern means what the glob means, for every glob, file name and case folding. */
  lemma {:induction false} TranslationKeepsMeaning(g: string, s: string, fold: char -> char)
    ensures LikeMatch(Translate(g), s, fold) <==> GlobMatch(g, s, fold)
    decreases g
  {
    if g == [] {
    } else if g[0] == '*' {
      assert Translate(g)[1..] == Translate(g[1..]);
      LikePercent(Translate(g), s, fold);
      forall i | 0 <= i <= |s|
        ensures LikeMatch(Translate(g[1..]), s[i..], fold) <==> GlobMatch(g[1..], s[i..], fold)
      {
        TranslationKeepsMeaning(g[1..], s[i..], fold);
      }
    } else {
      LikeStep(g[0], Translate(g[1..]), s, fold);
      if s != [] {
        TranslationKeepsMeaning(g[1..], s[1..], fold);
      }
    }
  }

  /** Whether `search_files` keeps a file name: the filter is skipped for the pattern `%`. */
  predicate SearchKeeps(glob: string, name: string, fold: char -> char) {
    var pattern := GlobToLike(glob);
    if pattern != "%" then LikeMatch(pattern, name, fold) else true
  }

  lemma PercentMeansStar(glob: string)
    ensures GlobToLike(glob) == "%" <==> glob == "*"
  {
    FivePassesAreOne(glob);
    if glob != [] && |glob| > 1 {
      assert Translate(glob) == LikeOf(glob[0]) + (LikeOf(glob[1]) + Translate(glob[1..][1..]));
    } else if glob != [] {
      assert glob == [glob[0]] && Translate(glob) == LikeOf(glob[0]) + [] == LikeOf(glob[0]);
    }
  }

  /** A search keeps exactly the names the glob matches: the `%` shortcut skips only a filter that accepts all. */
  lemma SearchKeepsGlobMatches(glob: string, name: string, fold: char -> char)
    ensures SearchKeeps(glob, name, fold) <==> GlobMatch(glob, name, fold)
  {
    PercentMeansStar(glob);
    if GlobToLike(glob) == "%" {
      assert GlobMatch(glob[1..], name[|name|..], fold);
    } else {
      FivePassesAreOne(glob);
      TranslationKeepsMeaning(glob, name, fold);
    }
  }
}
