/** Wildcard detection and shell-style name matching (`has_magic`, `fnmatch`,
    `match_filter`). */
module Glob {
  import opened Base
  import opened Text
  import opened PosixPath

  /** The characters the pattern `([?*[])` looks for. */
  const MagicChars: set<char> := {'?', '*', '['}

  /** `has_magic(s)`: a search for `[?*[]` succeeds somewhere in `s`. */
  function HasMagic(s: string): (b: bool)
    ensures b <==> exists i | 0 <= i < |s| :: s[i] in MagicChars
    decreases |s|
  {
    if s == [] then false
    else if s[0] in MagicChars then true
    else
      var b := HasMagic(s[1..]);
      assert b ==> exists i | 0 <= i < |s| :: s[i] in MagicChars by {
        if b {
          var i :| 0 <= i < |s[1..]| && s[1..][i] in MagicChars;
          assert s[i + 1] in MagicChars;
        }
      }
      assert (exists i | 0 <= i < |s| :: s[i] in MagicChars) ==> b by {
        if exists i | 0 <= i < |s| :: s[i] in MagicChars {
          var i :| 0 <= i < |s| && s[i] in MagicChars;
          assert i > 0 && s[1..][i - 1] == s[i];
        }
      }
      b
  }

  /** `fnmatch.fnmatch(name, pat)` on POSIX, where matching is case-sensitive:
      `*` matches any run of characters, `?` any one character, every other
      character itself. */
  function FnMatch(name: string, pat: string): bool
    decreases |name| + |pat|
  {
    if pat == [] then name == []
    else if pat[0] == '*' then FnMatch(name, pat[1..]) || (name != [] && FnMatch(name[1..], pat))
    else name != [] && (pat[0] == '?' || pat[0] == name[0]) && FnMatch(name[1..], pat[1..])
  }

  /** A pattern without wildcards matches exactly the name it spells. */
  lemma {:induction false} LiteralPatternMatchesItself(name: string, pat: string)
    requires !HasMagic(pat)
    ensures FnMatch(name, pat) <==> name == pat
    decreases |pat|
  {
    if pat != [] {
      assert pat[0] !in MagicChars;
      assert !HasMagic(pat[1..]);
      if name != [] {
        LiteralPatternMatchesItself(name[1..], pat[1..]);
        assert name == [name[0]] + name[1..] && pat == [pat[0]] + pat[1..];
      }
    }
  }

  /** `*` alone matches every name. */
  lemma {:induction false} StarMatchesEverything(name: string)
    ensures FnMatch(name, "*")
    decreases |name|
  {
    if name != [] {
      StarMatchesEverything(name[1..]);
    }
  }

  /** `match_filter(filename, filter)`: with no filter every name passes; otherwise
      the base name of `filename` (its text after the last `/`) must match. */
  function MatchFilter(filename: string, filter: Option<string>): (b: bool)
    ensures filter.None? ==> b
    ensures filter.Some? && !HasMagic(filter.value) ==> (b <==> Basename(filename) == filter.value)
  {
    match filter
    case None => true
    case Some(pat) =>
      var b := FnMatch(Basename(filename), pat);
      assert !HasMagic(pat) ==> (b <==> Basename(filename) == pat) by {
        if !HasMagic(pat) {
          LiteralPatternMatchesItself(Basename(filename), pat);
        }
      }
      b
  }

  /** The directory part of a path plays no role in filtering. */
  lemma MatchFilterIgnoresDirectory(dir: string, name: string, filter: Option<string>)
    requires '/' !in name
    ensures MatchFilter(Join(dir, name), filter) == MatchFilter(name, filter)
  {
    BasenameJoin(dir, name);
    BasenameJoin("", name);
  }
}
