/**
 * Text helpers the flashcard program takes from `java.lang.String`: case-insensitive equality
 * (`equalsIgnoreCase`) and `split(":")`.
 */
module Strings {

  /** ASCII case folding; other characters are left as they are. */
  function FoldChar(c: char): char {
    if 'A' <= c <= 'Z' then (c as int - 'A' as int + 'a' as int) as char else c
  }

  function Fold(s: string): string {
    seq(|s|, i requires 0 <= i < |s| => FoldChar(s[i]))
  }

  /** `a.equalsIgnoreCase(b)`: equal after folding the case of every character. */
  predicate SameText(a: string, b: string) {
    Fold(a) == Fold(b)
  }

  /** Case-insensitive equality has equal lengths and is an equivalence relation. */
  lemma SameTextIsEquivalence(a: string, b: string, c: string)
    ensures SameText(a, b) ==> |a| == |b|
    ensures SameText(a, a)
    ensures SameText(a, b) ==> SameText(b, a)
    ensures SameText(a, b) && SameText(b, c) ==> SameText(a, c)
  {
    if SameText(a, b) {
      assert |Fold(a)| == |Fold(b)|;
    }
  }

  /** The fields separated by `sep`, joined back together with `sep`. */
  function Join(fields: seq<string>, sep: char): string
    decreases |fields|
  {
    if |fields| == 0 then ""
    else if |fields| == 1 then fields[0]
    else fields[0] + [sep] + Join(fields[1..], sep)
  }

  /** Every piece between separators, empty pieces included. */
  function SplitAll(s: string, sep: char): (fields: seq<string>)
    ensures |fields| > 0
    ensures forall i :: 0 <= i < |fields| ==> sep !in fields[i]
    ensures Join(fields, sep) == s
    decreases |s|
  {
    if |s| == 0 then [""]
    else
      var rest := SplitAll(s[1..], sep);
      if s[0] == sep then
        assert [sep] + s[1..] == s;
        [""] + rest
      else
        var fields := [[s[0]] + rest[0]] + rest[1..];
        assert fields[1..] == rest[1..];
        assert Join(fields, sep) == [s[0]] + Join(rest, sep) by {
          if |rest| > 1 {
            assert rest == [rest[0]] + rest[1..];
          }
        }
        assert [s[0]] + s[1..] == s;
        fields
  }

  function DropTrailingEmpty(fields: seq<string>): (r: seq<string>)
    ensures |r| <= |fields| && r == fields[..|r|]
    ensures |r| > 0 ==> r[|r| - 1] != ""
    ensures forall i :: |r| <= i < |fields| ==> fields[i] == ""
  {
    if |fields| > 0 && fields[|fields| - 1] == "" then DropTrailingEmpty(fields[..|fields| - 1]) else fields
  }

  /**
   * `s.split(String.valueOf(sep))`: a string without the separator is returned whole (so `""`
   * splits to `[""]`); otherwise every piece, with trailing empty pieces removed.
   */
  function JavaSplit(s: string, sep: char): (r: seq<string>)
    ensures forall i :: 0 <= i < |r| ==> sep !in r[i]
    ensures sep !in s ==> r == [s]
    ensures sep in s && |r| > 0 ==> r[|r| - 1] != ""
    ensures Join(r, sep) <= s
    ensures forall i :: |Join(r, sep)| <= i < |s| ==> s[i] == sep
  {
    if sep !in s then [s]
    else
      var all := SplitAll(s, sep);
      JoinDropTrailing(all, sep);
      DropTrailingEmpty(all)
  }

  /** Joining one more field puts a separator before it. */
  lemma {:induction false} JoinSnoc(fields: seq<string>, last: string, sep: char)
    requires |fields| > 0
    ensures Join(fields + [last], sep) == Join(fields, sep) + [sep] + last
    decreases |fields|
  {
    if |fields| > 1 {
      assert (fields + [last])[1..] == fields[1..] + [last];
      JoinSnoc(fields[1..], last, sep);
    }
  }

  /** Dropping trailing empty fields leaves a prefix of the joined text, followed only by separators. */
  lemma {:induction false} JoinDropTrailing(fields: seq<string>, sep: char)
    ensures Join(DropTrailingEmpty(fields), sep) <= Join(fields, sep)
    ensures forall i :: |Join(DropTrailingEmpty(fields), sep)| <= i < |Join(fields, sep)| ==>
      Join(fields, sep)[i] == sep
    decreases |fields|
  {
    if |fields| > 0 && fields[|fields| - 1] == "" {
      var init := fields[..|fields| - 1];
      assert fields == init + [""];
      JoinDropTrailing(init, sep);
      if |init| > 0 {
        JoinSnoc(init, "", sep);
        assert Join(fields, sep) == Join(init, sep) + [sep];
      }
    }
  }

  lemma {:induction false} SplitAllPrefix(a: string, sep: char, b: string)
    requires sep !in a
    ensures SplitAll(a + [sep] + b, sep) == [a] + SplitAll(b, sep)
    decreases |a|
  {
    if |a| == 0 {
      assert a + [sep] + b == [sep] + b;
      assert (a + [sep] + b)[1..] == b;
    } else {
      assert (a + [sep] + b)[1..] == a[1..] + [sep] + b;
      SplitAllPrefix(a[1..], sep, b);
      assert [a[0]] + a[1..] == a;
    }
  }

  lemma {:induction false} SplitAllWhole(a: string, sep: char)
    requires sep !in a
    ensures SplitAll(a, sep) == [a]
    decreases |a|
  {
    if |a| > 0 {
      SplitAllWhole(a[1..], sep);
      assert [a[0]] + a[1..] == a;
    }
  }

  lemma SplitAllThree(a: string, b: string, c: string, sep: char)
    requires sep !in a && sep !in b && sep !in c
    ensures SplitAll(a + [sep] + b + [sep] + c, sep) == [a, b, c]
  {
    assert a + [sep] + b + [sep] + c == a + [sep] + (b + [sep] + c);
    SplitAllPrefix(a, sep, b + [sep] + c);
    SplitAllPrefix(b, sep, c);
    SplitAllWhole(c, sep);
  }

  /**
   * A row written as three separator-free fields, the last non-empty, splits back into exactly
   * those three fields.
   */
  lemma SplitThree(a: string, b: string, c: string, sep: char)
    requires sep !in a && sep !in b && sep !in c && |c| > 0
    ensures JavaSplit(a + [sep] + b + [sep] + c, sep) == [a, b, c]
  {
    var s := a + [sep] + b + [sep] + c;
    SplitAllThree(a, b, c, sep);
    assert s[|a|] == sep;
    assert DropTrailingEmpty([a, b, c]) == [a, b, c];
  }

  /** Each line followed by a line break, the way the export builds its output. */
  function Text(lines: seq<string>): string
    decreases |lines|
  {
    if |lines| == 0 then "" else lines[0] + "\n" + Text(lines[1..])
  }

  /**
   * The lines `BufferedReader.readLine` returns for a text that uses `\n` line breaks: the pieces
   * between breaks, where a final break ends the last line rather than starting an empty one.
   */
  function Lines(text: string): (r: seq<string>)
    ensures forall i :: 0 <= i < |r| ==> '\n' !in r[i]
    ensures |r| == 0 <==> |text| == 0
    ensures |text| > 0 ==> text == Join(r, '\n') || text == Join(r, '\n') + "\n"
  {
    if |text| == 0 then []
    else
      var pieces := SplitAll(text, '\n');
      if pieces[|pieces| - 1] == "" then
        var r := pieces[..|pieces| - 1];
        assert pieces == r + [""];
        assert |r| > 0;
        JoinSnoc(r, "", '\n');
        r
      else pieces
  }

  lemma {:induction false} SplitText(lines: seq<string>)
    requires forall i :: 0 <= i < |lines| ==> '\n' !in lines[i]
    ensures SplitAll(Text(lines), '\n') == lines + [""]
    decreases |lines|
  {
    if |lines| > 0 {
      SplitText(lines[1..]);
      SplitAllPrefix(lines[0], '\n', Text(lines[1..]));
      assert lines == [lines[0]] + lines[1..];
    }
  }

  /** Reading the written text line by line gives back the lines, when none holds a break. */
  lemma LinesOfText(lines: seq<string>)
    requires forall i :: 0 <= i < |lines| ==> '\n' !in lines[i]
    ensures Lines(Text(lines)) == lines
  {
    SplitText(lines);
    if |lines| > 0 {
      assert |Text(lines)| > 0;
    }
  }
}
