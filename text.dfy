/**
 * String operations the configuration codec relies on: invariant upper-casing
 * (ASCII letters only), the .NET notion of a white-space character,
 * `string.Split(char)`, `string.Join` and `string.StartsWith`.
 */
module Text {

  /** `char.ToUpperInvariant` restricted to ASCII: only 'a'..'z' change. */
  function UpperChar(c: char): char
  {
    if 'a' <= c <= 'z' then (c as int - 32) as char else c
  }

  /** `ToUpperInvariant`, character by character. */
  function Upper(s: string): (r: string)
    ensures |r| == |s|
    ensures forall i :: 0 <= i < |s| ==> r[i] == UpperChar(s[i])
  {
    seq(|s|, i requires 0 <= i < |s| => UpperChar(s[i]))
  }

  /** `char.IsWhiteSpace`: the Unicode space separators, the line and paragraph separators, U+0009..U+000D and U+0085. */
  predicate IsWhiteSpace(c: char)
  {
    c == ' ' || ('\t' <= c <= '\r') || c == '\U{85}' || c == '\U{A0}' || c == '\U{1680}'
    || ('\U{2000}' <= c <= '\U{200A}') || c == '\U{2028}' || c == '\U{2029}' || c == '\U{202F}'
    || c == '\U{205F}' || c == '\U{3000}'
  }

  /** The string with every white-space character removed (LINQ `Where(c => !char.IsWhiteSpace(c))`). */
  function StripWhiteSpace(s: string): (r: string)
    ensures forall i :: 0 <= i < |r| ==> !IsWhiteSpace(r[i])
  {
    if s == [] then []
    else if IsWhiteSpace(s[0]) then StripWhiteSpace(s[1..])
    else [s[0]] + StripWhiteSpace(s[1..])
  }

  predicate NoWhiteSpace(s: string)
  {
    forall i :: 0 <= i < |s| ==> !IsWhiteSpace(s[i])
  }

  predicate StartsWith(s: string, prefix: string)
  {
    |prefix| <= |s| && s[..|prefix|] == prefix
  }

  /**
   * `s.Split(c)`: the pieces between occurrences of `c`; n separators give
   * n + 1 pieces, so the empty string gives one empty piece.
   */
  function Split(s: string, c: char): (r: seq<string>)
    ensures |r| >= 1
    ensures c in s ==> |r| >= 2
    ensures forall i :: 0 <= i < |r| ==> c !in r[i]
  {
    if s == [] then [""]
    else
      var rest := Split(s[1..], c);
      if s[0] == c then [""] + rest
      else [[s[0]] + rest[0]] + rest[1..]
  }

  /** `string.Join(sep, xs)`. */
  function Join(xs: seq<string>, sep: string): string
  {
    if xs == [] then ""
    else if |xs| == 1 then xs[0]
    else xs[0] + sep + Join(xs[1..], sep)
  }

  function UpperAll(xs: seq<string>): (r: seq<string>)
    ensures |r| == |xs|
    ensures forall i :: 0 <= i < |xs| ==> r[i] == Upper(xs[i])
  {
    if xs == [] then [] else [Upper(xs[0])] + UpperAll(xs[1..])
  }

  /** Upper-casing is idempotent. */
  lemma UpperUpper(s: string)
    ensures Upper(Upper(s)) == Upper(s)
  {
  }

  lemma UpperConcat(a: string, b: string)
    ensures Upper(a + b) == Upper(a) + Upper(b)
  {
  }

  lemma {:induction false} StripConcat(a: string, b: string)
    ensures StripWhiteSpace(a + b) == StripWhiteSpace(a) + StripWhiteSpace(b)
  {
    if a == [] {
      assert a + b == b;
    } else {
      var ab := a + b;
      assert ab != [] && ab[0] == a[0] && ab[1..] == a[1..] + b;
      StripConcat(a[1..], b);
      if IsWhiteSpace(a[0]) {
        assert StripWhiteSpace(ab) == StripWhiteSpace(a[1..] + b);
      } else {
        assert StripWhiteSpace(ab) == [a[0]] + StripWhiteSpace(a[1..] + b);
        assert [a[0]] + (StripWhiteSpace(a[1..]) + StripWhiteSpace(b))
          == ([a[0]] + StripWhiteSpace(a[1..])) + StripWhiteSpace(b);
      }
    }
  }

  lemma {:induction false} StripClean(s: string)
    requires NoWhiteSpace(s)
    ensures StripWhiteSpace(s) == s
  {
    if s != [] {
      StripClean(s[1..]);
    }
  }

  /** A piece free of the separator is its own split. */
  lemma {:induction false} SplitFree(s: string, c: char)
    requires c !in s
    ensures Split(s, c) == [s]
  {
    if s != [] {
      SplitFree(s[1..], c);
      assert [s[0]] + s[1..] == s;
    }
  }

  /** Splitting distributes over one separator. */
  lemma {:induction false} SplitAt(a: string, b: string, c: char)
    ensures Split(a + [c] + b, c) == Split(a, c) + Split(b, c)
  {
    if a == [] {
      assert a + [c] + b == [c] + b;
      assert ([c] + b)[1..] == b;
    } else {
      assert (a + [c] + b)[1..] == a[1..] + [c] + b;
      SplitAt(a[1..], b, c);
    }
  }

  /** Joining pieces free of `c` with `c` and splitting on `c` gives the pieces back. */
  lemma {:induction false} SplitJoin(xs: seq<string>, c: char)
    requires |xs| >= 1
    requires forall i :: 0 <= i < |xs| ==> c !in xs[i]
    ensures Split(Join(xs, [c]), c) == xs
  {
    if |xs| == 1 {
      SplitFree(xs[0], c);
    } else {
      SplitJoin(xs[1..], c);
      SplitAt(xs[0], Join(xs[1..], [c]), c);
      SplitFree(xs[0], c);
      assert xs == [xs[0]] + xs[1..];
    }
  }

  /** Removing white space from a `",\t"`-joined list of clean pieces leaves the `","`-joined list. */
  lemma {:induction false} StripJoin(xs: seq<string>)
    requires forall i :: 0 <= i < |xs| ==> NoWhiteSpace(xs[i])
    ensures StripWhiteSpace(Join(xs, ",\t")) == Join(xs, ",")
  {
    if |xs| == 1 {
      StripClean(xs[0]);
    } else if |xs| > 1 {
      StripJoin(xs[1..]);
      StripConcat(xs[0] + ",\t", Join(xs[1..], ",\t"));
      StripConcat(xs[0], ",\t");
      StripClean(xs[0]);
      assert StripWhiteSpace(",\t") == ",";
    }
  }

  lemma {:induction false} UpperJoin(xs: seq<string>)
    ensures Upper(Join(xs, ",")) == Join(UpperAll(xs), ",")
  {
    if |xs| == 1 {
    } else if |xs| > 1 {
      UpperJoin(xs[1..]);
      UpperConcat(xs[0] + ",", Join(xs[1..], ","));
      UpperConcat(xs[0], ",");
      assert UpperAll(xs)[1..] == UpperAll(xs[1..]);
    }
  }

  /** A character absent from every piece and from the separator is absent from the joined string. */
  lemma {:induction false} JoinFree(xs: seq<string>, sep: string, c: char)
    requires c !in sep
    requires forall i :: 0 <= i < |xs| ==> c !in xs[i]
    ensures c !in Join(xs, sep)
  {
    if |xs| > 1 {
      JoinFree(xs[1..], sep, c);
    }
  }

  /** Pieces and separator free of white space join into a string free of white space. */
  lemma {:induction false} JoinClean(xs: seq<string>, sep: string)
    requires NoWhiteSpace(sep)
    requires forall i :: 0 <= i < |xs| ==> NoWhiteSpace(xs[i])
    ensures NoWhiteSpace(Join(xs, sep))
  {
    if |xs| > 1 {
      JoinClean(xs[1..], sep);
      var a, b := xs[0] + sep, Join(xs[1..], sep);
      forall i | 0 <= i < |a + b|
        ensures !IsWhiteSpace((a + b)[i])
      {
        if i < |xs[0]| {
          assert (a + b)[i] == xs[0][i];
        } else if i < |a| {
          assert (a + b)[i] == sep[i - |xs[0]|];
        } else {
          assert (a + b)[i] == b[i - |a|];
        }
      }
    }
  }

  /** Joining one more piece adds the separator and the piece, or just the piece when there was none before. */
  lemma {:induction false} JoinSnoc(xs: seq<string>, x: string, sep: string)
    ensures Join(xs + [x], sep) == if xs == [] then x else Join(xs, sep) + sep + x
    decreases |xs|
  {
    if xs == [] {
      assert xs + [x] == [x];
    } else if |xs| == 1 {
      assert (xs + [x])[1..] == [x];
    } else {
      assert (xs + [x])[0] == xs[0] && (xs + [x])[1..] == xs[1..] + [x];
      JoinSnoc(xs[1..], x, sep);
    }
  }

  /** Tokens joined with `,` form a string without white space or `:`, which white-space removal leaves alone. */
  lemma JoinTokensClean(xs: seq<string>)
    requires forall i :: 0 <= i < |xs| ==> IsToken(xs[i])
    ensures ':' !in Join(xs, ",")
    ensures StripWhiteSpace(Join(xs, ",")) == Join(xs, ",")
  {
    JoinFree(xs, ",", ':');
    JoinClean(xs, ",");
    StripClean(Join(xs, ","));
  }

  /** Upper-cased tokens joined with `,` split back into the upper-cased tokens. */
  lemma SplitUpperTokens(xs: seq<string>)
    requires |xs| >= 1
    requires forall i :: 0 <= i < |xs| ==> ',' !in xs[i]
    ensures Split(Upper(Join(xs, ",")), ',') == UpperAll(xs)
  {
    UpperJoin(xs);
    forall i | 0 <= i < |xs|
      ensures ',' !in UpperAll(xs)[i]
    {
      UpperKeeps(xs[i], ',');
    }
    SplitJoin(UpperAll(xs), ',');
  }

  /** Upper-casing neither creates nor removes a character that is not a letter. */
  lemma UpperKeeps(s: string, c: char)
    requires !('a' <= c <= 'z') && !('A' <= c <= 'Z')
    ensures c in Upper(s) <==> c in s
  {
    if c in s {
      var i :| 0 <= i < |s| && s[i] == c;
      assert Upper(s)[i] == c;
    }
    if c in Upper(s) {
      var i :| 0 <= i < |s| && Upper(s)[i] == c;
      assert s[i] == c;
    }
  }

  /** A non-empty piece without white space, `:` or `,` that does not start with `/`. */
  predicate IsToken(s: string)
  {
    |s| > 0 && s[0] != '/' && NoWhiteSpace(s) && ':' !in s && ',' !in s
  }

  /** Upper-casing touches only letters, so a string is a token exactly when its upper-cased form is. */
  lemma TokenUpper(s: string)
    ensures IsToken(s) <==> IsToken(Upper(s))
  {
    UpperKeeps(s, ':');
    UpperKeeps(s, ',');
    forall i | 0 <= i < |s|
      ensures IsWhiteSpace(Upper(s)[i]) <==> IsWhiteSpace(s[i])
      ensures Upper(s)[i] == '/' <==> s[i] == '/'
    {
    }
  }
}
