/** The string operations the agent relies on: `str::starts_with`,
    `str::split_whitespace` and `join(" ")`, over `string` = `seq<char>`. */
module Strings {

  /** `str::starts_with`. */
  predicate StartsWith(s: string, prefix: string) {
    |prefix| <= |s| && s[..|prefix|] == prefix
  }

  /** `char::is_whitespace`: the Unicode White_Space property. */
  predicate IsWhitespace(c: char) {
    || ('\t' <= c <= '\r')
    || c == ' '
    || c == '\U{0085}'
    || c == '\U{00A0}'
    || c == '\U{1680}'
    || ('\U{2000}' <= c <= '\U{200A}')
    || c == '\U{2028}'
    || c == '\U{2029}'
    || c == '\U{202F}'
    || c == '\U{205F}'
    || c == '\U{3000}'
  }

  /** A token `split_whitespace` can yield: non-empty, without whitespace. */
  predicate IsWord(w: string) {
    |w| > 0 && forall i :: 0 <= i < |w| ==> !IsWhitespace(w[i])
  }

  /** The characters of `s` that are not whitespace, in order. */
  function Visible(s: string): (r: string)
    ensures |r| <= |s|
  {
    if |s| == 0 then ""
    else if IsWhitespace(s[0]) then Visible(s[1..])
    else [s[0]] + Visible(s[1..])
  }

  /** All tokens glued together without separators. */
  function Concat(ws: seq<string>): string {
    if |ws| == 0 then "" else ws[0] + Concat(ws[1..])
  }

  /** `join(sep)`. */
  function Join(ws: seq<string>, sep: string): string {
    if |ws| == 0 then ""
    else if |ws| == 1 then ws[0]
    else ws[0] + sep + Join(ws[1..], sep)
  }

  /** `str::split_whitespace`: the maximal whitespace-free runs of `s`, in order.
      Every token is a word, and together they hold exactly the visible characters. */
  function SplitWhitespace(s: string): (r: seq<string>)
    ensures forall i :: 0 <= i < |r| ==> IsWord(r[i])
    ensures Concat(r) == Visible(s)
    ensures |s| > 0 && !IsWhitespace(s[0]) ==> |r| > 0 && |r[0]| > 0 && r[0][0] == s[0]
    decreases |s|
  {
    if |s| == 0 then []
    else
      var rest := SplitWhitespace(s[1..]);
      if IsWhitespace(s[0]) then rest
      else if |s| > 1 && !IsWhitespace(s[1]) then
        var r := [[s[0]] + rest[0]] + rest[1..];
        ExtendFirstWord(s[0], rest);
        r
      else
        ConcatCons([s[0]], rest);
        [[s[0]]] + rest
  }

  lemma ConcatCons(w: string, ws: seq<string>)
    ensures Concat([w] + ws) == w + Concat(ws)
  {
    assert ([w] + ws)[1..] == ws;
  }

  /** Gluing a visible character onto the first token keeps every token a word. */
  lemma ExtendFirstWord(c: char, ws: seq<string>)
    requires !IsWhitespace(c)
    requires |ws| > 0 && forall i :: 0 <= i < |ws| ==> IsWord(ws[i])
    ensures var r := [[c] + ws[0]] + ws[1..];
      && (forall i :: 0 <= i < |r| ==> IsWord(r[i]))
      && Concat(r) == [c] + Concat(ws)
      && r[0][0] == c
  {
    var r := [[c] + ws[0]] + ws[1..];
    PrependWord(c, ws[0]);
    forall i | 1 <= i < |r| ensures IsWord(r[i]) {
      assert r[i] == ws[i];
    }
    ExtendFirstConcat(c, ws[0], ws[1..]);
    assert [ws[0]] + ws[1..] == ws;
  }

  lemma PrependWord(c: char, w: string)
    requires !IsWhitespace(c) && IsWord(w)
    ensures IsWord([c] + w)
  {
    var v := [c] + w;
    forall i | 0 <= i < |v| ensures !IsWhitespace(v[i]) {
      if i > 0 {
        assert v[i] == w[i - 1];
      }
    }
  }

  lemma ExtendFirstConcat(c: char, w: string, rest: seq<string>)
    ensures Concat([[c] + w] + rest) == [c] + Concat([w] + rest)
  {
    ConcatCons([c] + w, rest);
    ConcatCons(w, rest);
    assert ([c] + w) + Concat(rest) == [c] + (w + Concat(rest));
  }

  /** A word followed by whitespace (or nothing) is split off as one token. */
  lemma {:induction false} SplitWordThen(w: string, tail: string)
    requires IsWord(w)
    requires |tail| == 0 || IsWhitespace(tail[0])
    ensures SplitWhitespace(w + tail) == [w] + SplitWhitespace(tail)
    decreases |w|
  {
    var s := w + tail;
    assert s[0] == w[0];
    if |w| == 1 {
      assert s[1..] == tail;
      assert [s[0]] == w;
      if |tail| > 0 {
        assert s[1] == tail[0];
      }
    } else {
      assert s[1..] == w[1..] + tail;
      assert IsWord(w[1..]) by {
        forall i | 0 <= i < |w[1..]| ensures !IsWhitespace(w[1..][i]) {
          assert w[1..][i] == w[i + 1];
        }
      }
      SplitWordThen(w[1..], tail);
      assert s[1] == w[1];
      assert [w[0]] + w[1..] == w;
    }
  }

  /** Whitespace before the first word is skipped and yields no token. Together with
      `SplitWordThen` and the empty string this fixes every split point. */
  lemma SplitSkipsWhitespace(c: char, s: string)
    requires IsWhitespace(c)
    ensures SplitWhitespace([c] + s) == SplitWhitespace(s)
  {
    assert ([c] + s)[1..] == s;
  }

  /** A single word splits into itself. */
  lemma SplitSingleWord(w: string)
    requires IsWord(w)
    ensures SplitWhitespace(w) == [w]
  {
    SplitWordThen(w, "");
    assert w + "" == w;
  }

  /** Splitting undoes `join(" ")` for any list of words. */
  lemma {:induction false} SplitJoin(ws: seq<string>)
    requires forall i :: 0 <= i < |ws| ==> IsWord(ws[i])
    ensures SplitWhitespace(Join(ws, " ")) == ws
  {
    if |ws| == 0 {
    } else if |ws| == 1 {
      SplitSingleWord(ws[0]);
    } else {
      var tail := " " + Join(ws[1..], " ");
      assert Join(ws, " ") == ws[0] + tail;
      SplitWordThen(ws[0], tail);
      assert tail[1..] == Join(ws[1..], " ");
      SplitJoin(ws[1..]);
      assert [ws[0]] + ws[1..] == ws;
    }
  }

  /** A joined list starts with its first element. */
  lemma JoinStartsWithFirst(ws: seq<string>, sep: string)
    requires |ws| > 0
    ensures StartsWith(Join(ws, sep), ws[0])
  {
    if |ws| > 1 {
      assert Join(ws, sep) == ws[0] + (sep + Join(ws[1..], sep));
      assert (ws[0] + (sep + Join(ws[1..], sep)))[..|ws[0]|] == ws[0];
    }
  }

  /** Printable ASCII other than the space; none of it is whitespace. */
  predicate Graphic(s: string) {
    |s| == 0 || ('!' <= s[0] <= '~' && Graphic(s[1..]))
  }

  lemma {:induction false} GraphicConcat(a: string, b: string)
    requires Graphic(a) && Graphic(b)
    ensures Graphic(a + b)
  {
    if |a| > 0 {
      GraphicConcat(a[1..], b);
      assert (a + b)[1..] == a[1..] + b;
    } else {
      assert a + b == b;
    }
  }

  lemma {:induction false} GraphicIsWord(s: string)
    requires |s| > 0 && Graphic(s)
    ensures IsWord(s)
  {
    if |s| > 1 {
      GraphicIsWord(s[1..]);
      assert forall i :: 0 < i < |s| ==> s[i] == s[1..][i - 1];
    }
  }
}
