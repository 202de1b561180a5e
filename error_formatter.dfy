/**
 * The `errorFormatter` given to the request validator (app.js): a validation
 * error on the nested parameter `a.b.c` is reported on the form field `a[b][c]`,
 * with its message and offending value passed through.
 */
module ErrorFormatter {

  /** The record the formatter returns for one validation error. */
  datatype FormattedError<V> = FormattedError(param: string, msg: string, value: V)

  function CountDots(s: string): nat {
    if s == [] then 0 else (if s[0] == '.' then 1 else 0) + CountDots(s[1..])
  }

  /** `s.split('.')`: the pieces between dots, empty ones included. */
  function Split(s: string): (parts: seq<string>)
    ensures |parts| == CountDots(s) + 1
    ensures forall i :: 0 <= i < |parts| ==> '.' !in parts[i]
  {
    if s == [] then [[]]
    else
      var rest := Split(s[1..]);
      if s[0] == '.' then [[]] + rest
      else [[s[0]] + rest[0]] + rest[1..]
  }

  /** `parts.join('.')`. */
  function Join(parts: seq<string>): string
    requires parts != []
  {
    if |parts| == 1 then parts[0] else parts[0] + "." + Join(parts[1..])
  }

  /** Splitting at the dots and joining with dots gives the parameter back. */
  lemma {:induction false} JoinSplit(s: string)
    ensures Join(Split(s)) == s
  {
    if s != [] {
      JoinSplit(s[1..]);
      var rest := Split(s[1..]);
      if s[0] == '.' {
        assert Split(s)[1..] == rest;
        assert s == "." + s[1..];
      } else {
        var parts := Split(s);
        assert parts[0] == [s[0]] + rest[0] && parts[1..] == rest[1..];
        if |rest| == 1 {
          assert s == [s[0]] + rest[0];
        } else {
          assert Join(rest) == rest[0] + "." + Join(rest[1..]);
          assert s == [s[0]] + s[1..];
        }
      }
    }
  }

  /** Each segment wrapped in brackets, in order. */
  function Bracketed(segments: seq<string>): string {
    if segments == [] then [] else "[" + segments[0] + "]" + Bracketed(segments[1..])
  }

  /** Every dot written as `][`. */
  function DotsAsBrackets(s: string): string {
    if s == [] then []
    else (if s[0] == '.' then "][" else [s[0]]) + DotsAsBrackets(s[1..])
  }

  /**
   * A reference definition of the bracket form that does not split: the text
   * before the first dot is kept, that dot opens `[`, every later dot becomes
   * `][`, and one `]` closes the last segment.
   */
  function BracketForm(param: string): string {
    if param == [] then []
    else if param[0] == '.' then "[" + DotsAsBrackets(param[1..]) + "]"
    else [param[0]] + BracketForm(param[1..])
  }

  /** Without a dot there is nothing to bracket. */
  lemma {:induction false} BracketFormWithoutDot(param: string)
    requires '.' !in param
    ensures BracketForm(param) == param
  {
    if param != [] {
      assert param[0] != '.';
      BracketFormWithoutDot(param[1..]);
      assert [param[0]] + param[1..] == param;
    }
  }

  /**
   * Closing the first segment of any text and bracketing the others gives the
   * text with each dot written as `][`, closed by `]`.
   */
  lemma {:induction false} ClosedSegments(q: string)
    ensures Split(q)[0] + "]" + Bracketed(Split(q)[1..]) == DotsAsBrackets(q) + "]"
  {
    if q == [] {
      assert Split(q) == [[]];
    } else {
      var rest := Split(q[1..]);
      var dots := DotsAsBrackets(q[1..]);
      ClosedSegments(q[1..]);
      if q[0] == '.' {
        assert Split(q) == [[]] + rest;
        ClosedAfterDot(rest, dots);
      } else {
        assert Split(q) == [[q[0]] + rest[0]] + rest[1..];
        ClosedAfterChar(q[0], rest, dots);
      }
    }
  }

  lemma ClosedAfterDot(rest: seq<string>, dots: string)
    requires rest != [] && rest[0] + "]" + Bracketed(rest[1..]) == dots + "]"
    ensures ([[]] + rest)[0] + "]" + Bracketed(([[]] + rest)[1..]) == "][" + dots + "]"
  {
    var inner := rest[0] + "]" + Bracketed(rest[1..]);
    assert ([[]] + rest)[1..] == rest;
    assert Bracketed(rest) == "[" + inner;
    calc {
      ([[]] + rest)[0] + "]" + Bracketed(rest);
      "]" + ("[" + inner);
      "][" + inner;
    }
  }

  lemma ClosedAfterChar(c: char, rest: seq<string>, dots: string)
    requires rest != [] && rest[0] + "]" + Bracketed(rest[1..]) == dots + "]"
    ensures var parts := [[c] + rest[0]] + rest[1..];
      parts[0] + "]" + Bracketed(parts[1..]) == [c] + dots + "]"
  {
    var parts := [[c] + rest[0]] + rest[1..];
    assert parts[0] == [c] + rest[0] && parts[1..] == rest[1..];
    calc {
      parts[0] + "]" + Bracketed(parts[1..]);
      [c] + (rest[0] + "]" + Bracketed(rest[1..]));
      [c] + (dots + "]");
    }
  }

  /** The bracket form of the segments of any text, dots becoming `][`. */
  lemma BracketedSplit(q: string)
    ensures Bracketed(Split(q)) == "[" + DotsAsBrackets(q) + "]"
  {
    ClosedSegments(q);
    var parts := Split(q);
    assert Bracketed(parts) == "[" + (parts[0] + "]" + Bracketed(parts[1..]));
  }

  /** The root segment followed by the bracketed rest is the reference bracket form. */
  lemma {:induction false} SegmentsMatchBracketForm(param: string)
    ensures Split(param)[0] + Bracketed(Split(param)[1..]) == BracketForm(param)
  {
    if param != [] {
      var rest := Split(param[1..]);
      if param[0] == '.' {
        assert Split(param)[1..] == rest;
        BracketedSplit(param[1..]);
      } else {
        SegmentsMatchBracketForm(param[1..]);
        var parts := Split(param);
        assert parts[0] == [param[0]] + rest[0] && parts[1..] == rest[1..];
      }
    }
  }

  /**
   * The formatter: the first dot-separated segment is the root, and each
   * remaining segment is appended in brackets, in order.
   */
  method FormatError<V>(param: string, msg: string, value: V) returns (e: FormattedError<V>)
    ensures e.msg == msg && e.value == value
    ensures e.param == Split(param)[0] + Bracketed(Split(param)[1..])
    ensures e.param == BracketForm(param)
    ensures '.' !in param ==> e.param == param
  {
    var namespace := Split(param);
    var root := namespace[0];
    namespace := namespace[1..];
    var formParam := root;
    while |namespace| > 0
      invariant formParam + Bracketed(namespace) == root + Bracketed(Split(param)[1..])
    {
      formParam := formParam + "[" + namespace[0] + "]";
      namespace := namespace[1..];
    }
    SegmentsMatchBracketForm(param);
    if '.' !in param {
      BracketFormWithoutDot(param);
    }
    return FormattedError(formParam, msg, value);
  }
}
