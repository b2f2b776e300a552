/**
 * The value cleaner of TinyEarn (`__clean_vals`): a table cell is either Zacks.com's
 * empty marker "--", which becomes NaN, or a display string from which `$`, `%` and `,`
 * are deleted before the rest is handed to `float`. The numeric parse itself is not
 * modelled: the cleaner yields the text `float` would receive, and `None` for NaN.
 */
module Cleaning {
  import opened Wrappers

  /** The cell text Zacks.com uses for a missing figure. */
  const Sentinel: string := "--"

  /** The characters the cleaner deletes: currency sign, percent sign, thousands separator. */
  const Symbols: set<char> := {'$', '%', ','}

  /** `s` with every character of `bad` dropped and the others kept in order. */
  function Without(s: string, bad: set<char>): (r: string)
    ensures |r| <= |s|
    ensures forall i :: 0 <= i < |r| ==> r[i] !in bad
    decreases |s|
  {
    if s == [] then []
    else if s[0] in bad then Without(s[1..], bad)
    else [s[0]] + Without(s[1..], bad)
  }

  /** Python's `s.replace(c, "")`: every occurrence of `c` deleted. */
  function Delete(s: string, c: char): (r: string)
    ensures |r| <= |s|
    decreases |s|
  {
    if s == [] then []
    else (if s[0] == c then [] else [s[0]]) + Delete(s[1..], c)
  }

  /** The replace chain of `__clean_vals`: `$` first, then `%`, then `,`. */
  function Strip(s: string): (r: string)
    ensures |r| <= |s|
  {
    Delete(Delete(Delete(s, '$'), '%'), ',')
  }

  /** `__clean_vals`: `None` for the sentinel (NaN), otherwise the text passed to `float`. */
  function CleanVals(value: string): (r: Option<string>)
    ensures r.None? <==> value == Sentinel
    ensures r.Some? ==> r.value == Without(value, Symbols)
  {
    if value == Sentinel then None
    else
      StripIsWithout(value);
      Some(Strip(value))
  }

  lemma {:induction false} DeleteIsWithout(s: string, c: char)
    ensures Delete(s, c) == Without(s, {c})
    decreases |s|
  {
    if s != [] {
      DeleteIsWithout(s[1..], c);
    }
  }

  /** Deleting one set of characters and then another is deleting their union. */
  lemma {:induction false} WithoutTwice(s: string, a: set<char>, b: set<char>)
    ensures Without(Without(s, a), b) == Without(s, a + b)
    decreases |s|
  {
    if s != [] {
      WithoutTwice(s[1..], a, b);
      if s[0] !in a {
        assert Without(s, a) == [s[0]] + Without(s[1..], a);
        assert ([s[0]] + Without(s[1..], a))[1..] == Without(s[1..], a);
      }
    }
  }

  /** The three chained replacements delete exactly the characters of `Symbols`. */
  lemma StripIsWithout(s: string)
    ensures Strip(s) == Without(s, Symbols)
  {
    DeleteIsWithout(s, '$');
    DeleteIsWithout(Delete(s, '$'), '%');
    DeleteIsWithout(Delete(Delete(s, '$'), '%'), ',');
    WithoutTwice(s, {'$'}, {'%'});
    WithoutTwice(s, {'$'} + {'%'}, {','});
    assert {'$'} + {'%'} + {','} == Symbols;
  }

  /** Stripping keeps every other character as often as it occurs and drops the symbols. */
  lemma {:induction false} WithoutCounts(s: string, bad: set<char>, c: char)
    ensures multiset(Without(s, bad))[c] == if c in bad then 0 else multiset(s)[c]
    decreases |s|
  {
    if s != [] {
      WithoutCounts(s[1..], bad, c);
      assert s == [s[0]] + s[1..];
      assert multiset(s) == multiset([s[0]]) + multiset(s[1..]);
    }
  }

  /** Stripping works character by character, so the kept characters stay in their order. */
  lemma {:induction false} WithoutConcat(s: string, t: string, bad: set<char>)
    ensures Without(s + t, bad) == Without(s, bad) + Without(t, bad)
    decreases |s|
  {
    if s != [] {
      assert (s + t)[0] == s[0];
      assert (s + t)[1..] == s[1..] + t;
      WithoutConcat(s[1..], t, bad);
      if s[0] !in bad {
        assert [s[0]] + Without(s[1..], bad) + Without(t, bad)
            == [s[0]] + (Without(s[1..], bad) + Without(t, bad));
      }
    } else {
      assert s + t == t;
    }
  }

  /** A string without any deleted character is left unchanged, and only such a string is. */
  lemma {:induction false} WithoutFixed(s: string, bad: set<char>)
    ensures Without(s, bad) == s <==> forall i :: 0 <= i < |s| ==> s[i] !in bad
    decreases |s|
  {
    if s != [] {
      WithoutFixed(s[1..], bad);
      if s[0] in bad {
        assert |Without(s, bad)| <= |s[1..]| < |s|;
      } else {
        assert forall i :: 1 <= i < |s| ==> s[i] == s[1..][i - 1];
      }
    }
  }

  /** The string handed to `float` contains no `$`, `%` or `,`, and stripping it again changes nothing. */
  lemma StripIdempotent(s: string)
    ensures forall i :: 0 <= i < |Strip(s)| ==> Strip(s)[i] !in Symbols
    ensures Strip(Strip(s)) == Strip(s)
  {
    StripIsWithout(s);
    StripIsWithout(Strip(s));
    WithoutFixed(Strip(s), Symbols);
  }
}
