/**
 * The PHP string functions the attachment trait relies on, over `string`
 * (a sequence of characters): `trim($s, '/')`, `str_replace` with one search
 * string, and the extension part of `pathinfo`.
 */
module Text {

  /** A lower-case hexadecimal digit, the alphabet of an md5 digest. */
  predicate IsHexDigit(c: char) {
    '0' <= c <= '9' || 'a' <= c <= 'f'
  }

  /** `ltrim($s, '/')`: drops every leading '/'. */
  function TrimLeft(s: string): (r: string)
    ensures r == [] || r[0] != '/'
  {
    if |s| > 0 && s[0] == '/' then TrimLeft(s[1..]) else s
  }

  /** `rtrim($s, '/')`: drops every trailing '/'. */
  function TrimRight(s: string): (r: string)
    ensures r == [] || r[|r| - 1] != '/'
  {
    if |s| > 0 && s[|s| - 1] == '/' then TrimRight(s[..|s| - 1]) else s
  }

  /** `trim($s, '/')`: drops every leading and every trailing '/'. */
  function Trim(s: string): (r: string)
    ensures r == [] || (r[0] != '/' && r[|r| - 1] != '/')
    ensures (s == [] || (s[0] != '/' && s[|s| - 1] != '/')) ==> r == s
  {
    TrimRightPrefix(TrimLeft(s));
    TrimRight(TrimLeft(s))
  }

  /** Trimming a string that has no separator at either end and then one '/' appended gives it back. */
  lemma TrimOneTrailing(x: string)
    requires x != [] && x[0] != '/' && x[|x| - 1] != '/'
    ensures Trim(x + "/") == x
  {
    assert TrimLeft(x + "/") == x + "/";
    assert (x + "/")[..|x|] == x;
    assert TrimRight(x + "/") == TrimRight(x);
  }

  /** Left trimming keeps a suffix of the string. */
  lemma {:induction false} TrimLeftSuffix(s: string)
    ensures |TrimLeft(s)| <= |s| && TrimLeft(s) == s[|s| - |TrimLeft(s)|..]
  {
    if |s| > 0 && s[0] == '/' {
      TrimLeftSuffix(s[1..]);
    }
  }

  /** Right trimming keeps a prefix of the string. */
  lemma {:induction false} TrimRightPrefix(s: string)
    ensures |TrimRight(s)| <= |s| && TrimRight(s) == s[..|TrimRight(s)|]
  {
    if |s| > 0 && s[|s| - 1] == '/' {
      TrimRightPrefix(s[..|s| - 1]);
    }
  }

  /** Only separators are dropped: everything before the left-trimmed rest is '/'. */
  lemma {:induction false} TrimLeftDropsSeparators(s: string)
    ensures forall j :: 0 <= j < |s| - |TrimLeft(s)| ==> s[j] == '/'
  {
    if |s| > 0 && s[0] == '/' {
      TrimLeftDropsSeparators(s[1..]);
    }
  }

  /** Only separators are dropped: everything after the right-trimmed rest is '/'. */
  lemma {:induction false} TrimRightDropsSeparators(s: string)
    ensures forall j :: |TrimRight(s)| <= j < |s| ==> s[j] == '/'
  {
    if |s| > 0 && s[|s| - 1] == '/' {
      TrimRightDropsSeparators(s[..|s| - 1]);
    }
  }

  /**
   * `str_replace($search, $replace, $s)` for a single search string: every
   * non-overlapping occurrence, scanning left to right, is replaced. An empty
   * search string leaves the subject unchanged, as in PHP.
   */
  function Replace(s: string, search: string, replace: string): (r: string)
    ensures search == [] ==> r == s
    ensures replace == search ==> r == s
    ensures search != [] && |s| < |search| ==> r == s
    decreases |s|
  {
    if search == [] || |s| < |search| then s
    else if s[..|search|] == search then
      assert s[..|search|] + s[|search|..] == s;
      replace + Replace(s[|search|..], search, replace)
    else
      assert [s[0]] + s[1..] == s;
      [s[0]] + Replace(s[1..], search, replace)
  }

  /** A string without '/' holds no occurrence of a search string that ends in '/'. */
  lemma {:induction false} ReplaceUntouched(s: string, search: string, replace: string)
    requires search != [] && search[|search| - 1] == '/'
    requires '/' !in s
    ensures Replace(s, search, replace) == s
  {
    if |s| >= |search| {
      assert s[..|search|][|search| - 1] == s[|search| - 1];
      assert s[..|search|] != search;
      ReplaceUntouched(s[1..], search, replace);
      assert [s[0]] + s[1..] == s;
    }
  }

  /** An occurrence at the very start is replaced, and the scan goes on after it. */
  lemma ReplaceLeading(search: string, rest: string, replace: string)
    requires search != []
    ensures Replace(search + rest, search, replace) == replace + Replace(rest, search, replace)
  {
    assert (search + rest)[..|search|] == search;
    assert (search + rest)[|search|..] == rest;
  }

  /**
   * The part of `s` after the last `c`; all of `s` when `c` does not occur.
   */
  function AfterLast(s: string, c: char): (r: string)
    ensures c !in r
  {
    if s == [] then []
    else if s[|s| - 1] == c then []
    else AfterLast(s[..|s| - 1], c) + [s[|s| - 1]]
  }

  /** The part after the last `c` is a suffix, and whatever precedes it is that `c`. */
  lemma {:induction false} AfterLastSuffix(s: string, c: char)
    ensures var r := AfterLast(s, c);
      && |r| <= |s| && r == s[|s| - |r|..]
      && (|r| < |s| ==> s[|s| - |r| - 1] == c)
  {
    if s != [] && s[|s| - 1] != c {
      AfterLastSuffix(s[..|s| - 1], c);
    }
  }

  /** Appending text free of `c` extends the part after the last `c`. */
  lemma {:induction false} AfterLastAppend(s: string, t: string, c: char)
    requires c !in t
    ensures AfterLast(s + t, c) == AfterLast(s, c) + t
  {
    if t != [] {
      var u, last := t[..|t| - 1], t[|t| - 1];
      assert last in t;
      assert (s + t)[|s + t| - 1] == last;
      assert (s + t)[..|s + t| - 1] == s + u;
      assert c !in u by { assert forall x :: x in u ==> x in t; }
      AfterLastAppend(s, u, c);
      calc {
        AfterLast(s + t, c);
        AfterLast(s + u, c) + [last];
        AfterLast(s, c) + u + [last];
        { assert u + [last] == t; }
        AfterLast(s, c) + t;
      }
    } else {
      assert s + t == s;
    }
  }

  /**
   * `pathinfo($name, PATHINFO_EXTENSION)`: the text after the last '.' of the
   * base name, or "" when the base name has no '.'. As in PHP's `basename`,
   * the base name is what follows the last '/' once trailing '/' are dropped.
   */
  function Extension(name: string): (r: string)
    ensures '.' !in r && '/' !in r
  {
    var base := AfterLast(TrimRight(name), '/');
    AfterLastSuffix(base, '.');
    if '.' in base then AfterLast(base, '.') else ""
  }

  /** The extension of `stem.ext` is `ext`, whatever the stem. */
  lemma ExtensionOf(stem: string, ext: string)
    requires '.' !in ext && '/' !in ext
    ensures Extension(stem + "." + ext) == ext
  {
    var name := stem + "." + ext;
    assert name[|name| - 1] == ("." + ext)[|ext|];
    assert TrimRight(name) == name;
    var head := AfterLast(stem, '/');
    assert '/' !in "." + ext;
    assert stem + "." + ext == stem + ("." + ext);
    AfterLastAppend(stem, "." + ext, '/');
    var base := head + "." + ext;
    assert AfterLast(stem + "." + ext, '/') == base;
    assert base[|head|] == '.';
    assert '.' in base;
    assert AfterLast(head + ".", '.') == [];
    AfterLastAppend(head + ".", ext, '.');
  }

  /** Trailing separators do not hide the extension: `report.pdf/` has extension `pdf`. */
  lemma ExtensionIgnoresTrailingSeparators(name: string)
    ensures Extension(name + "/") == Extension(name)
  {
    assert (name + "/")[..|name|] == name;
    assert TrimRight(name + "/") == TrimRight(name);
  }
}
