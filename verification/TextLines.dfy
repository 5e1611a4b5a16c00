/** `split` and `join` on one separator, and what trimming does to a longer text. */
module TextLines {
  import opened Text

  // --------------------------------------------------- split and join

  function Split(s: string, separator: char): (parts: seq<string>)
    ensures |parts| > 0
  {
    if s == "" then [""]
    else if s[0] == separator then [""] + Split(s[1..], separator)
    else StartWith(s[0], Split(s[1..], separator))
  }

  function StartWith(c: char, parts: seq<string>): (r: seq<string>)
    requires |parts| > 0
    ensures |r| > 0
  {
    [[c] + parts[0]] + parts[1..]
  }

  lemma StartWithJoin(c: char, a: seq<string>, b: seq<string>)
    requires |a| > 0
    ensures StartWith(c, a + b) == StartWith(c, a) + b
  {
    assert (a + b)[1..] == a[1..] + b;
  }

  lemma {:induction false} SplitCons(c: char, s: string, separator: char)
    ensures Split([c] + s, separator)
            == if c == separator then [""] + Split(s, separator) else StartWith(c, Split(s, separator))
  {
    assert ([c] + s)[1..] == s;
  }

  function Join(parts: seq<string>, separator: char): string {
    if parts == [] then "" else if |parts| == 1 then parts[0] else parts[0] + [separator] + Join(parts[1..], separator)
  }

  lemma {:induction false} SplitWhole(s: string, separator: char)
    requires separator !in s
    ensures Split(s, separator) == [s]
  {
    if s != "" {
      SplitWhole(s[1..], separator);
      assert s == [s[0]] + s[1..];
    }
  }

  lemma {:induction false} SplitAt(a: string, b: string, separator: char)
    ensures Split(a + [separator] + b, separator) == Split(a, separator) + Split(b, separator)
  {
    if a == "" {
      assert a + [separator] + b == [separator] + b;
      SplitCons(separator, b, separator);
    } else {
      var c, rest := a[0], a[1..];
      assert a == [c] + rest;
      assert a + [separator] + b == [c] + (rest + [separator] + b);
      SplitAt(rest, b, separator);
      SplitCons(c, rest + [separator] + b, separator);
      StartWithJoin(c, Split(rest, separator), Split(b, separator));
    }
  }

  lemma {:induction false} SplitOfJoin(parts: seq<string>, separator: char)
    requires parts != [] && forall i :: 0 <= i < |parts| ==> separator !in parts[i]
    ensures Split(Join(parts, separator), separator) == parts
  {
    SplitWhole(parts[0], separator);
    if |parts| > 1 {
      SplitOfJoin(parts[1..], separator);
      SplitAt(parts[0], Join(parts[1..], separator), separator);
    }
  }

  lemma {:induction false} JoinOfSplit(s: string, separator: char)
    ensures Join(Split(s, separator), separator) == s
  {
    if s != "" {
      JoinOfSplit(s[1..], separator);
      var rest := Split(s[1..], separator);
      assert s == [s[0]] + s[1..];
      if s[0] == separator {
        assert ([""] + rest)[1..] == rest;
      } else {
        assert StartWith(s[0], rest)[1..] == rest[1..];
      }
    }
  }

  function ExtendLast(parts: seq<string>, c: char): seq<string>
    requires parts != []
  {
    parts[..|parts| - 1] + [parts[|parts| - 1] + [c]]
  }

  lemma ExtendBehind(part: string, parts: seq<string>, c: char)
    requires parts != []
    ensures ExtendLast([part] + parts, c) == [part] + ExtendLast(parts, c)
  {
    assert ([part] + parts)[..|parts|] == [part] + parts[..|parts| - 1];
  }

  lemma ExtendGrown(d: char, parts: seq<string>, c: char)
    requires parts != []
    ensures ExtendLast(StartWith(d, parts), c) == StartWith(d, ExtendLast(parts, c))
  {
    if |parts| == 1 {
      assert [d] + (parts[0] + [c]) == [d] + parts[0] + [c];
    } else {
      ExtendBehind([d] + parts[0], parts[1..], c);
      ExtendBehind(parts[0], parts[1..], c);
      assert parts == [parts[0]] + parts[1..];
    }
  }

  /** A character other than the separator extends the last part. */
  lemma {:induction false} SplitExtended(s: string, c: char, separator: char)
    requires c != separator
    ensures Split(s + [c], separator) == ExtendLast(Split(s, separator), c)
  {
    if s == "" {
      assert s + [c] == [c] == [c] + "";
      SplitCons(c, "", separator);
      assert ExtendLast([""], c) == [[c]];
    } else {
      SplitExtended(s[1..], c, separator);
      assert (s + [c])[1..] == s[1..] + [c];
      var rest := Split(s[1..], separator);
      ExtendBehind("", rest, c);
      ExtendGrown(s[0], rest, c);
    }
  }

  // ---------------------------------------------------------- trimming

  lemma {:induction false} TrimStartExtended(s: string, c: char)
    ensures TrimStart(s + [c])
            == if TrimStart(s) != "" then TrimStart(s) + [c] else if IsSpace(c) then "" else [c]
  {
    if s == "" {
      assert s + [c] == [c];
    } else {
      TrimStartExtended(s[1..], c);
      assert (s + [c])[1..] == s[1..] + [c];
    }
  }

  lemma TrimExtended(s: string, c: char)
    requires IsSpace(c)
    ensures Trim(s + [c]) == Trim(s)
  {
    TrimStartExtended(s, c);
    var t := TrimStart(s);
    assert (t + [c])[..|t|] == t;
  }

  /** Nothing before a visible character is trimmed from the end. */
  lemma {:induction false} TrimEndAfter(a: string, b: string)
    requires a != "" && !IsSpace(a[|a| - 1])
    ensures TrimEnd(a + b) == a + TrimEnd(b)
  {
    if b == "" {
      assert a + b == a;
    } else {
      TrimEndAfter(a, b[..|b| - 1]);
      assert (a + b)[..|a + b| - 1] == a + b[..|b| - 1];
      assert (a + b)[|a + b| - 1] == b[|b| - 1];
      assert b[..|b| - 1] + [b[|b| - 1]] == b;
    }
  }

  lemma {:induction false} TrimEndIdle(s: string)
    ensures TrimEnd(TrimEnd(s)) == TrimEnd(s)
  {
    if s != "" && IsSpace(s[|s| - 1]) {
      TrimEndIdle(s[..|s| - 1]);
    }
  }
}
