/** Strings as sequences of Unicode scalar values, with the whitespace trimming the program relies on. */
module Text {

  datatype Option<+T> = None | Some(value: T)

  /** The Unicode White_Space property, which Rust's trim family removes. */
  predicate IsWhitespace(c: char) {
    || '\U{0009}' <= c <= '\U{000D}'
    || c == ' '
    || c == '\U{0085}'
    || c == '\U{00A0}'
    || c == '\U{1680}'
    || '\U{2000}' <= c <= '\U{200A}'
    || c == '\U{2028}'
    || c == '\U{2029}'
    || c == '\U{202F}'
    || c == '\U{205F}'
    || c == '\U{3000}'
  }

  function TrimStart(s: string): string {
    if s != "" && IsWhitespace(s[0]) then TrimStart(s[1..]) else s
  }

  function TrimEnd(s: string): string {
    if s != "" && IsWhitespace(s[|s| - 1]) then TrimEnd(s[..|s| - 1]) else s
  }

  function Trim(s: string): string {
    TrimEnd(TrimStart(s))
  }

  /** Text that `trim` leaves alone. */
  predicate IsTrimmed(s: string) {
    s == "" || (!IsWhitespace(s[0]) && !IsWhitespace(s[|s| - 1]))
  }

  predicate IsBlank(s: string) {
    s == "" || (IsWhitespace(s[0]) && IsBlank(s[1..]))
  }

  lemma {:induction false} BlankAppend(s: string, t: string)
    ensures IsBlank(s + t) <==> IsBlank(s) && IsBlank(t)
  {
    if s == "" {
      assert s + t == t;
    } else {
      assert (s + t)[1..] == s[1..] + t;
      BlankAppend(s[1..], t);
    }
  }

  lemma {:induction false} TrimStartSkips(left: string, rest: string)
    requires IsBlank(left)
    ensures TrimStart(left + rest) == TrimStart(rest)
  {
    if left == "" {
      assert left + rest == rest;
    } else {
      assert (left + rest)[1..] == left[1..] + rest;
      TrimStartSkips(left[1..], rest);
    }
  }

  lemma TrimEndPushed(s: string, c: char)
    requires IsWhitespace(c)
    ensures TrimEnd(s + [c]) == TrimEnd(s)
  {
    assert (s + [c])[..|s|] == s;
  }

  lemma {:induction false} TrimEndSkips(rest: string, right: string)
    requires IsBlank(right)
    ensures TrimEnd(rest + right) == TrimEnd(rest)
  {
    if right == "" {
      assert rest + right == rest;
    } else {
      var inner, c := right[..|right| - 1], right[|right| - 1];
      assert right == inner + [c];
      BlankAppend(inner, [c]);
      TrimEndPushed(rest + inner, c);
      assert rest + right == (rest + inner) + [c];
      TrimEndSkips(rest, inner);
    }
  }

  lemma {:induction false} TrimStartSplit(s: string) returns (left: string)
    ensures IsBlank(left) && s == left + TrimStart(s)
    ensures TrimStart(s) == "" || !IsWhitespace(TrimStart(s)[0])
  {
    if s != "" && IsWhitespace(s[0]) {
      var rest := TrimStartSplit(s[1..]);
      left := [s[0]] + rest;
      assert left[1..] == rest;
    } else {
      left := "";
    }
  }

  lemma {:induction false} TrimEndSplit(s: string) returns (right: string)
    ensures IsBlank(right) && s == TrimEnd(s) + right
    ensures TrimEnd(s) == "" || !IsWhitespace(TrimEnd(s)[|TrimEnd(s)| - 1])
  {
    if s != "" && IsWhitespace(s[|s| - 1]) {
      var rest := TrimEndSplit(s[..|s| - 1]);
      right := rest + [s[|s| - 1]];
      BlankAppend(rest, [s[|s| - 1]]);
    } else {
      right := "";
    }
  }

  /** `trim` returns the unique trimmed core of a string: pad a trimmed text with
      whitespace on both sides and trimming gives the text back. */
  lemma TrimPadded(left: string, core: string, right: string)
    requires IsBlank(left) && IsTrimmed(core) && IsBlank(right)
    ensures Trim(left + core + right) == core
  {
    assert left + core + right == left + (core + right);
    TrimStartSkips(left, core + right);
    if core == "" {
      TrimStartSkips(right, "");
      assert right + "" == core + right;
    } else {
      assert (core + right)[0] == core[0];
      TrimEndSkips(core, right);
    }
  }

  lemma TrimIsTrimmed(s: string)
    ensures IsTrimmed(Trim(s)) && |Trim(s)| <= |s|
  {
    var left := TrimStartSplit(s);
    var right := TrimEndSplit(TrimStart(s));
    hide TrimStart, TrimEnd;
    assert Trim(s) != "" ==> Trim(s)[0] == TrimStart(s)[0];
  }

  lemma TrimOfTrimmed(s: string)
    requires IsTrimmed(s)
    ensures Trim(s) == s
  {
  }

  lemma TrimBlank(s: string)
    ensures Trim(s) == "" <==> IsBlank(s)
  {
    var left := TrimStartSplit(s);
    var right := TrimEndSplit(TrimStart(s));
    if IsBlank(s) {
      TrimPadded(s, "", "");
      assert s + "" + "" == s;
    } else {
      BlankAppend(left, TrimStart(s));
    }
  }

  /** Trimming the end first does not change the result of trimming both ends. */
  lemma TrimAfterTrimEnd(s: string)
    ensures Trim(TrimEnd(s)) == Trim(s)
  {
    var right := TrimEndSplit(s);
    var left := TrimStartSplit(TrimEnd(s));
    var t := TrimStart(TrimEnd(s));
    assert IsTrimmed(t) by {
      assert t == TrimEnd(s)[|left|..];
    }
    assert s == left + t + right;
    TrimPadded(left, t, right);
  }

  /** Trailing whitespace does not lengthen the trimmed text. */
  lemma TrimDropsTail(s: string, tail: string)
    requires IsBlank(tail)
    ensures |Trim(s + tail)| <= |s|
  {
    TrimEndSkips(s, tail);
    TrimAfterTrimEnd(s + tail);
    TrimAfterTrimEnd(s);
    TrimIsTrimmed(s);
  }

  function Join(parts: seq<string>, separator: string): string {
    if parts == [] then ""
    else if |parts| == 1 then parts[0]
    else parts[0] + separator + Join(parts[1..], separator)
  }

  lemma {:induction false} JoinPushed(parts: seq<string>, separator: string, last: string)
    ensures Join(parts + [last], separator) == if parts == [] then last else Join(parts, separator) + separator + last
  {
    if parts == [] {
      assert parts + [last] == [last];
    } else {
      JoinPushed(parts[1..], separator, last);
      assert (parts + [last])[1..] == parts[1..] + [last];
    }
  }
}
