/**
 * The service-name normalizer used by the suffix-ignoring diff:
 * `re.sub(r"_[a-z0-9]{,10}$", "", name)`. It drops a final `_` followed by at
 * most ten ASCII lower-case letters or digits. Since `_` is not in the
 * character class, only the last `_` of a name can start a match, and at most
 * one match exists. Python's `$` also matches just before a final newline.
 */
module Normalizer {
  import opened Wrappers

  /** `{,10}` */
  const MaxSuffixLength: nat := 10

  /** `[a-z0-9]` */
  predicate IsSuffixChar(c: char) {
    ('a' <= c <= 'z') || ('0' <= c <= '9')
  }

  /** The position of the last `_` in `s`, if any. */
  function LastUnderscore(s: string): (r: Option<nat>)
    ensures r.Some? ==> r.value < |s| && s[r.value] == '_'
    ensures r.Some? ==> forall i :: r.value < i < |s| ==> s[i] != '_'
    ensures r.None? ==> forall i :: 0 <= i < |s| ==> s[i] != '_'
  {
    if |s| == 0 then None
    else if s[|s| - 1] == '_' then Some(|s| - 1)
    else LastUnderscore(s[..|s| - 1])
  }

  /** The pattern matches `s[p..]` and that match ends at the end of `s`. */
  predicate SuffixMatchAt(s: string, p: nat)
    ensures SuffixMatchAt(s, p) ==> LastUnderscore(s) == Some(p)
  {
    && p < |s|
    && s[p] == '_'
    && |s| - (p + 1) <= MaxSuffixLength
    && forall i :: p < i < |s| ==> IsSuffixChar(s[i])
  }

  /** Removes the one match that ends at the very end of `s`, if there is one. */
  function StripAtEnd(s: string): (r: string)
    ensures forall p: nat :: SuffixMatchAt(s, p) ==> r == s[..p]
    ensures (forall p: nat :: !SuffixMatchAt(s, p)) ==> r == s
  {
    match LastUnderscore(s)
    case None => s
    case Some(p) =>
      if SuffixMatchAt(s, p) then s[..p]
      else
        assert forall q: nat :: !SuffixMatchAt(s, q);
        s
  }

  /** `re.sub(r"_[a-z0-9]{,10}$", "", name)` */
  function NormalizeName(name: string): (r: string)
    ensures |r| <= |name|
    ensures |name| - |r| <= MaxSuffixLength + 1
    ensures (|name| == 0 || name[|name| - 1] != '\n') ==> r <= name
  {
    if |name| > 0 && name[|name| - 1] == '\n' then
      StripAtEnd(name[..|name| - 1]) + "\n"
    else
      StripAtEnd(name)
  }

  /** A name with a final `_` plus up to ten of `[a-z0-9]` loses exactly that tail. */
  lemma StripsMatchedSuffix(stem: string, tail: string)
    requires |tail| <= MaxSuffixLength
    requires forall i :: 0 <= i < |tail| ==> IsSuffixChar(tail[i])
    ensures NormalizeName(stem + "_" + tail) == stem
  {
    var s := stem + "_" + tail;
    assert SuffixMatchAt(s, |stem|) by {
      forall i | |stem| < i < |s| ensures IsSuffixChar(s[i]) {
        assert s[i] == tail[i - |stem| - 1];
      }
    }
    assert s[|s| - 1] != '\n' by {
      if |tail| > 0 { assert s[|s| - 1] == tail[|tail| - 1]; }
    }
    assert s[..|stem|] == stem;
  }

  /** A name without any match is left alone: no `_`, a longer tail, or a tail with another character. */
  lemma KeepsUnmatchedName(name: string)
    requires |name| == 0 || name[|name| - 1] != '\n'
    requires forall p: nat :: !SuffixMatchAt(name, p)
    ensures NormalizeName(name) == name
  {
  }

  /** The tail after the last `_` is what decides: too long, or any character outside `[a-z0-9]`. */
  lemma NoMatchWhenTailRejected(stem: string, tail: string)
    requires forall i :: 0 <= i < |tail| ==> tail[i] != '_'
    requires |tail| > MaxSuffixLength || exists i :: 0 <= i < |tail| && !IsSuffixChar(tail[i])
    ensures forall p: nat :: !SuffixMatchAt(stem + "_" + tail, p)
  {
    var s := stem + "_" + tail;
    assert s[|stem|] == '_';
    assert forall i :: 0 <= i < |tail| ==> s[|stem| + 1 + i] == tail[i];
  }

  lemma StripExamples()
    ensures NormalizeName("Foo_ab12") == "Foo"
    ensures NormalizeName("Foo_") == "Foo"
    ensures NormalizeName("MyService_ab12x") == "MyService"
  {
    StripsMatchedSuffix("Foo", "ab12");
    assert "Foo" + "_" + "ab12" == "Foo_ab12";
    StripsMatchedSuffix("Foo", "");
    assert "Foo" + "_" + "" == "Foo_";
    StripsMatchedSuffix("MyService", "ab12x");
    assert "MyService" + "_" + "ab12x" == "MyService_ab12x";
  }

  lemma KeepExamples()
    ensures NormalizeName("Foo_abcdefghijk") == "Foo_abcdefghijk"
    ensures NormalizeName("Foo_AB") == "Foo_AB"
    ensures NormalizeName("Foo") == "Foo"
  {
  }

  /** Python's `$` also matches just before a final newline, which stays. */
  lemma NewlineExample()
    ensures NormalizeName("Foo_ab\n") == "Foo\n"
  {
    StripsMatchedSuffix("Foo", "ab");
    assert "Foo_ab\n"[..6] == "Foo" + "_" + "ab";
  }
}
