/** filter_datum: one `re.sub` pass per sensitive field, in list order, each
    on the text the previous pass produced. */
module FilteredLogger {
  import opened Redactor

  /** What compiling the field's pattern can raise. */
  datatype Error = UnterminatedCharacterSet

  datatype Result<T> = Ok(value: T) | Err(error: Error)

  /** The separator closes the character class `[^SEP]`: an empty separator
      leaves `[^]*` without its closing bracket (a `]` right after `[^` is a
      member of the class), and a backslash escapes the closing bracket. Every
      other single character stands for itself inside the class. */
  predicate ClosesClass(separator: Text) {
    |separator| == 1 && separator[0] != '\\'
  }

  /** The conditions under which the pattern is the literal scan of the
      Redactor module: each field is a literal, the separator is at most one
      character, and the redaction holds no backslash (which the replacement
      template would read as an escape). */
  predicate LiteralConfiguration(fields: seq<Text>, redaction: Text, separator: Text) {
    (forall i :: 0 <= i < |fields| ==> IsLiteralField(fields[i]))
    && |separator| <= 1
    && '\\' !in redaction
  }

  /** The passes for `fields`, first to last, applied to `message`. */
  function Filtered(fields: seq<Text>, redaction: Text, sep: char, message: Text): Text
    decreases |fields|
  {
    if fields == [] then message
    else RedactField(fields[|fields| - 1], redaction, sep, Filtered(fields[..|fields| - 1], redaction, sep, message))
  }

  /** The loop of filter_datum: `message` is rebound to the output of each
      field's pass. The first pass compiles the pattern, so a separator that
      does not close the character class fails there; with no fields no
      pattern is compiled and the message comes back as it was. */
  method FilterDatum(fields: seq<Text>, redaction: Text, message: Text, separator: Text)
    returns (r: Result<Text>)
    requires LiteralConfiguration(fields, redaction, separator)
    ensures fields == [] ==> r == Ok(message)
    ensures fields != [] && !ClosesClass(separator) ==> r == Err(UnterminatedCharacterSet)
    ensures fields != [] && ClosesClass(separator) ==> r == Ok(Filtered(fields, redaction, separator[0], message))
  {
    var current := message;
    for i := 0 to |fields|
      invariant i > 0 ==> ClosesClass(separator)
      invariant i == 0 ==> current == message
      invariant i > 0 ==> current == Filtered(fields[..i], redaction, separator[0], message)
    {
      if !ClosesClass(separator) {
        return Err(UnterminatedCharacterSet);
      }
      assert fields[..i + 1][..i] == fields[..i];
      current := RedactField(fields[i], redaction, separator[0], current);
    }
    assert fields[..|fields|] == fields;
    return Ok(current);
  }

  // ---------------------------------------------------------------------
  // The passes in sequence
  // ---------------------------------------------------------------------

  /** Running the passes for `first` and then those for `second` is running
      the passes for the joined list: each field sees the text the earlier
      fields left. */
  lemma {:induction false} FilteredAppend(first: seq<Text>, second: seq<Text>, redaction: Text, sep: char, message: Text)
    ensures Filtered(first + second, redaction, sep, message)
            == Filtered(second, redaction, sep, Filtered(first, redaction, sep, message))
    decreases |second|
  {
    if second == [] {
      assert first + second == first;
    } else {
      var all := first + second;
      var init := second[..|second| - 1];
      assert all[..|all| - 1] == first + init;
      assert all[|all| - 1] == second[|second| - 1];
      FilteredAppend(first, init, redaction, sep, message);
    }
  }

  /** When no field's key occurs in the message, every pass leaves it as it
      is. */
  lemma {:induction false} FilteredNoKey(fields: seq<Text>, redaction: Text, sep: char, message: Text)
    requires forall i :: 0 <= i < |fields| ==> !Occurs(Key(fields[i]), message)
    ensures Filtered(fields, redaction, sep, message) == message
    decreases |fields|
  {
    if fields != [] {
      FilteredNoKey(fields[..|fields| - 1], redaction, sep, message);
      RedactFieldNoKey(fields[|fields| - 1], redaction, sep, message);
    }
  }

  /** When the redaction holds no separator, the passes keep the number of
      separators in the message. */
  lemma {:induction false} FilteredKeepsSeparators(fields: seq<Text>, redaction: Text, sep: char, message: Text)
    requires sep !in redaction
    ensures multiset(Filtered(fields, redaction, sep, message))[sep] == multiset(message)[sep]
    decreases |fields|
  {
    if fields != [] {
      var before := Filtered(fields[..|fields| - 1], redaction, sep, message);
      FilteredKeepsSeparators(fields[..|fields| - 1], redaction, sep, message);
      RedactFieldKeepsSeparators(fields[|fields| - 1], redaction, sep, before);
    }
  }

  // ---------------------------------------------------------------------
  // The passes segment by segment
  // ---------------------------------------------------------------------

  /** No field's key holds the separator (so no field name does, and the
      separator is not `=`). */
  predicate KeysWithoutSeparator(fields: seq<Text>, sep: char) {
    forall i :: 0 <= i < |fields| ==> sep !in Key(fields[i])
  }

  /** The passes work on each side of a separator on their own, and a text
      that starts at a separator still does after them. */
  lemma {:induction false} FilteredSplit(fields: seq<Text>, redaction: Text, sep: char, a: Text, b: Text)
    requires KeysWithoutSeparator(fields, sep)
    requires AtBoundary(b, sep)
    ensures Filtered(fields, redaction, sep, a + b)
            == Filtered(fields, redaction, sep, a) + Filtered(fields, redaction, sep, b)
    ensures AtBoundary(Filtered(fields, redaction, sep, b), sep)
    decreases |fields|
  {
    if fields != [] {
      var init, f := fields[..|fields| - 1], fields[|fields| - 1];
      FilteredSplit(init, redaction, sep, a, b);
      var fb := Filtered(init, redaction, sep, b);
      RedactFieldSplit(f, redaction, sep, Filtered(init, redaction, sep, a), fb);
      RedactFieldHead(f, redaction, sep, fb);
    }
  }

  /** A separator in front passes through every pass. */
  lemma {:induction false} FilteredAfterSeparator(fields: seq<Text>, redaction: Text, sep: char, x: Text)
    requires KeysWithoutSeparator(fields, sep)
    ensures Filtered(fields, redaction, sep, [sep] + x) == [sep] + Filtered(fields, redaction, sep, x)
    decreases |fields|
  {
    if fields != [] {
      var init := fields[..|fields| - 1];
      FilteredAfterSeparator(init, redaction, sep, x);
      RedactFieldAfterSeparator(fields[|fields| - 1], redaction, sep, Filtered(init, redaction, sep, x));
    }
  }

  /** The earlier of two key ends. */
  function Earlier(x: End, y: End): (r: End)
    ensures r.NoEnd? <==> x.NoEnd? && y.NoEnd?
    ensures r.EndAt? ==> (r == x || r == y) && (x.EndAt? ==> r.at <= x.at) && (y.EndAt? ==> r.at <= y.at)
  {
    match x
    case NoEnd => y
    case EndAt(a) =>
      match y
      case NoEnd => x
      case EndAt(b) => if a <= b then x else y
  }

  /** Where the first key of any of the fields ends in a segment. */
  function FirstEnd(fields: seq<Text>, s: Text): (r: End)
    ensures r.EndAt? ==> r.at <= |s|
    decreases |fields|
  {
    if fields == [] then NoEnd
    else Earlier(FirstEnd(fields[..|fields| - 1], s), KeyEnd(Key(fields[|fields| - 1]), s))
  }

  lemma TruncatedWithoutSeparator(redaction: Text, s: Text, end: End, sep: char)
    requires sep !in s && sep !in redaction
    requires end.EndAt? ==> end.at <= |s|
    ensures sep !in Truncated(redaction, s, end)
  {
    match end
    case NoEnd =>
    case EndAt(e) =>
      assert forall i :: 0 <= i < e ==> s[..e][i] == s[i];
  }

  /** On a segment without separators, the passes together cut it after the
      first end of any field's key and complete it with the redaction, or
      leave it as it was when no key occurs. */
  lemma {:induction false} FilteredOnSegment(fields: seq<Text>, redaction: Text, sep: char, s: Text)
    requires sep !in s && sep !in redaction && '=' !in redaction
    ensures Filtered(fields, redaction, sep, s) == Truncated(redaction, s, FirstEnd(fields, s))
    decreases |fields|
  {
    if fields != [] {
      var init, f := fields[..|fields| - 1], fields[|fields| - 1];
      var k := Key(f);
      FilteredOnSegment(init, redaction, sep, s);
      var before := FirstEnd(init, s);
      var t := Truncated(redaction, s, before);
      TruncatedWithoutSeparator(redaction, s, before, sep);
      RedactFieldOnSegment(f, redaction, sep, t);
      match before
      case NoEnd =>
      case EndAt(c) =>
        KeyEndTruncated(k, redaction, s, c);
        match KeyEnd(k, s)
        case NoEnd =>
        case EndAt(e) =>
          if e <= c {
            assert t[..e] == s[..e];
          }
    }
  }

  /** A segment cut at `c` and completed with the redaction has, for all the
      fields together, the key ends the segment has at or before `c`. */
  lemma {:induction false} FirstEndTruncated(fields: seq<Text>, redaction: Text, s: Text, c: nat)
    requires '=' !in redaction
    requires c <= |s|
    ensures FirstEnd(fields, s[..c] + redaction) == Within(FirstEnd(fields, s), c)
    decreases |fields|
  {
    if fields != [] {
      var init, f := fields[..|fields| - 1], fields[|fields| - 1];
      FirstEndTruncated(init, redaction, s, c);
      KeyEndTruncated(Key(f), redaction, s, c);
    }
  }

  /** On a segment, running the passes a second time changes nothing. */
  lemma SegmentIdempotent(fields: seq<Text>, redaction: Text, sep: char, s: Text)
    requires sep !in s && sep !in redaction && '=' !in redaction
    ensures Filtered(fields, redaction, sep, Filtered(fields, redaction, sep, s))
            == Filtered(fields, redaction, sep, s)
  {
    var end := FirstEnd(fields, s);
    var t := Truncated(redaction, s, end);
    FilteredOnSegment(fields, redaction, sep, s);
    TruncatedWithoutSeparator(redaction, s, end, sep);
    FilteredOnSegment(fields, redaction, sep, t);
    match end
    case NoEnd =>
    case EndAt(c) =>
      FirstEndTruncated(fields, redaction, s, c);
      assert t[..c] == s[..c];
  }

  /** Running filter_datum's passes a second time changes nothing, provided
      neither the redaction nor any key holds the separator and the redaction
      holds no `=`: each segment between separators is redacted on its own,
      and a redacted segment is matched again at the same key. */
  lemma {:induction false} FilteredIdempotent(fields: seq<Text>, redaction: Text, sep: char, message: Text)
    requires KeysWithoutSeparator(fields, sep)
    requires sep !in redaction && '=' !in redaction
    ensures Filtered(fields, redaction, sep, Filtered(fields, redaction, sep, message))
            == Filtered(fields, redaction, sep, message)
    decreases |message|
  {
    if sep !in message {
      SegmentIdempotent(fields, redaction, sep, message);
    } else {
      var i :| 0 <= i < |message| && message[i] == sep;
      var a, x := message[..i], message[i + 1..];
      assert message == a + ([sep] + x);
      var fa := Filtered(fields, redaction, sep, a);
      var fx := Filtered(fields, redaction, sep, x);
      FilteredSplit(fields, redaction, sep, a, [sep] + x);
      FilteredAfterSeparator(fields, redaction, sep, x);
      FilteredSplit(fields, redaction, sep, fa, [sep] + fx);
      FilteredAfterSeparator(fields, redaction, sep, fx);
      FilteredIdempotent(fields, redaction, sep, a);
      FilteredIdempotent(fields, redaction, sep, x);
    }
  }

  // ---------------------------------------------------------------------
  // The passes on a line of key=value pairs
  // ---------------------------------------------------------------------

  /** One `key=value` pair of a log line. */
  datatype Pair = Pair(key: Text, value: Text)

  /** A pair whose key and value hold neither `=` nor the separator, with a
      separator other than `=`. */
  predicate PlainPair(p: Pair, sep: char) {
    '=' !in p.key && '=' !in p.value && sep !in p.key && sep !in p.value && sep != '='
  }

  function PairText(p: Pair): Text {
    p.key + "=" + p.value
  }

  /** The pairs, each followed by the separator. */
  function Line(ps: seq<Pair>, sep: char): Text
    decreases |ps|
  {
    if ps == [] then [] else PairText(ps[0]) + [sep] + Line(ps[1..], sep)
  }

  predicate IsSuffix(f: Text, s: Text) {
    |f| <= |s| && s[|s| - |f|..] == f
  }

  /** Some field's pattern matches at this key. The pattern has no word
      boundary, so it is enough that the field name ends the key: `e` matches
      the `e=` of `name=`. */
  predicate Sensitive(fields: seq<Text>, key: Text) {
    exists i :: 0 <= i < |fields| && IsSuffix(fields[i], key)
  }

  /** The pair with its value replaced when its key is sensitive. */
  function RedactPair(fields: seq<Text>, redaction: Text, p: Pair): Pair {
    if Sensitive(fields, p.key) then Pair(p.key, redaction) else p
  }

  function RedactPairs(fields: seq<Text>, redaction: Text, ps: seq<Pair>): seq<Pair>
    decreases |ps|
  {
    if ps == [] then [] else [RedactPair(fields, redaction, ps[0])] + RedactPairs(fields, redaction, ps[1..])
  }

  /** In a pair's text the only `=` is the one after the key. */
  lemma OnlyEqualsInPair(p: Pair, i: nat)
    requires '=' !in p.key && '=' !in p.value
    requires i < |PairText(p)|
    ensures PairText(p)[i] == '=' <==> i == |p.key|
  {
    var s, n := PairText(p), |p.key|;
    if i < n {
      assert s[i] == p.key[i];
    } else if i > n {
      assert s[i] == p.value[i - n - 1];
    }
  }

  /** The text just before the pair's `=`, as long as the field, is the end
      of the key. */
  lemma BeforeEqualsInPair(f: Text, p: Pair)
    requires |f| <= |p.key|
    ensures var s, n := PairText(p), |p.key|;
            s[n - |f|..n + 1] == p.key[n - |f|..] + "="
  {
    var s, n := PairText(p), |p.key|;
    assert s[..n] == p.key;
    assert s[n - |f|..n] == p.key[n - |f|..];
    assert s[n - |f|..n + 1] == s[n - |f|..n] + [s[n]];
  }

  /** So a field's key ends in a pair's text exactly at the `=`, when the
      field ends the pair's key, and nowhere else. */
  lemma EndsKeyInPair(f: Text, p: Pair, e: int)
    requires '=' !in p.key && '=' !in p.value
    ensures EndsKeyAt(Key(f), PairText(p), e) <==> e == |p.key| + 1 && IsSuffix(f, p.key)
  {
    var s, k, n := PairText(p), Key(f), |p.key|;
    if EndsKeyAt(k, s, e) {
      var w := s[e - |k|..e];
      assert s[e - 1] == w[|k| - 1] == '=';
      OnlyEqualsInPair(p, e - 1);
      BeforeEqualsInPair(f, p);
      assert w[..|f|] == f;
    }
    if e == n + 1 && IsSuffix(f, p.key) {
      BeforeEqualsInPair(f, p);
    }
  }

  /** The pattern for one field matches a plain pair exactly when the field
      ends the key, and then its key ends at the pair's `=`. */
  lemma KeyEndInPair(f: Text, p: Pair)
    requires '=' !in p.key && '=' !in p.value
    ensures KeyEnd(Key(f), PairText(p)) == if IsSuffix(f, p.key) then EndAt(|p.key| + 1) else NoEnd
  {
    var s, k := PairText(p), Key(f);
    KeyEndFirst(k, s);
    match KeyEnd(k, s)
    case EndAt(e) =>
      EndsKeyInPair(f, p, e);
    case NoEnd =>
      EndsKeyInPair(f, p, |p.key| + 1);
  }

  lemma {:induction false} FirstEndInPair(fields: seq<Text>, p: Pair)
    requires '=' !in p.key && '=' !in p.value
    ensures FirstEnd(fields, PairText(p)) == if Sensitive(fields, p.key) then EndAt(|p.key| + 1) else NoEnd
    decreases |fields|
  {
    if fields != [] {
      var init, f := fields[..|fields| - 1], fields[|fields| - 1];
      FirstEndInPair(init, p);
      KeyEndInPair(f, p);
      if Sensitive(init, p.key) {
        var i :| 0 <= i < |init| && IsSuffix(init[i], p.key);
        assert fields[i] == init[i];
      }
      if IsSuffix(f, p.key) {
        assert Sensitive(fields, p.key);
      }
      if Sensitive(fields, p.key) {
        var i :| 0 <= i < |fields| && IsSuffix(fields[i], p.key);
        if i < |init| {
          assert init[i] == fields[i];
        }
      }
    }
  }

  /** The passes replace a plain pair's value by the redaction when some
      field ends its key, and leave the pair as it is otherwise. */
  lemma FilteredPair(fields: seq<Text>, redaction: Text, sep: char, p: Pair)
    requires PlainPair(p, sep)
    requires sep !in redaction && '=' !in redaction
    ensures Filtered(fields, redaction, sep, PairText(p)) == PairText(RedactPair(fields, redaction, p))
  {
    var s := PairText(p);
    assert sep !in s;
    FilteredOnSegment(fields, redaction, sep, s);
    FirstEndInPair(fields, p);
    assert s[..|p.key| + 1] == p.key + "=";
  }

  /** On a line of plain pairs, the passes keep every key, every separator
      and every value no field matches, and replace each value whose key a
      field ends by the redaction. */
  lemma {:induction false} FilteredLine(fields: seq<Text>, redaction: Text, sep: char, ps: seq<Pair>)
    requires KeysWithoutSeparator(fields, sep)
    requires forall i :: 0 <= i < |ps| ==> PlainPair(ps[i], sep)
    requires sep !in redaction && '=' !in redaction
    ensures Filtered(fields, redaction, sep, Line(ps, sep)) == Line(RedactPairs(fields, redaction, ps), sep)
    decreases |ps|
  {
    if ps == [] {
      FilteredNoKey(fields, redaction, sep, []);
    } else {
      var head, rest := PairText(ps[0]), Line(ps[1..], sep);
      assert Line(ps, sep) == head + ([sep] + rest);
      FilteredSplit(fields, redaction, sep, head, [sep] + rest);
      FilteredAfterSeparator(fields, redaction, sep, rest);
      FilteredPair(fields, redaction, sep, ps[0]);
      FilteredLine(fields, redaction, sep, ps[1..]);
      var qs := RedactPairs(fields, redaction, ps);
      assert qs[0] == RedactPair(fields, redaction, ps[0]) && qs[1..] == RedactPairs(fields, redaction, ps[1..]);
      calc {
        Filtered(fields, redaction, sep, Line(ps, sep));
        Filtered(fields, redaction, sep, head) + Filtered(fields, redaction, sep, [sep] + rest);
        PairText(qs[0]) + ([sep] + Line(qs[1..], sep));
        Line(qs, sep);
      }
    }
  }

  // ---------------------------------------------------------------------
  // Examples
  // ---------------------------------------------------------------------

  /** Two passes, the second on the output of the first. */
  lemma FilteredTwo(f1: Text, f2: Text, redaction: Text, sep: char, message: Text)
    ensures Filtered([f1, f2], redaction, sep, message)
            == RedactField(f2, redaction, sep, RedactField(f1, redaction, sep, message))
  {
    var m1 := RedactField(f1, redaction, sep, message);
    assert [f1, f2][..1] == [f1] && [f1][..0] == [];
    assert Filtered([f1], redaction, sep, message) == m1;
  }

  /** The passes of the counterexample below, one by one. The texts are
      parameters so that the proofs reason from the lemmas about the pass
      rather than unfold it on literals. */
  lemma FirstRunPassB(field: Text, message: Text)
    requires field == "b;c" && message == "y=Z;c=1"
    ensures RedactField(field, "ab", ';', message) == message
  {
    AbsentCharNoKey(Key(field), message, 'b');
    RedactFieldNoKey(field, "ab", ';', message);
  }

  lemma FirstRunPassY(field: Text, message: Text, value: Text, rest: Text)
    requires field == "y" && message == "y=Z;c=1" && value == "Z" && rest == ";c=1"
    ensures RedactField(field, "ab", ';', message) == "y=ab;c=1"
  {
    assert message == Key(field) + value + rest;
    assert Key(field) + "ab" + rest == "y=ab;c=1";
    RedactFieldAtMatch(field, "ab", ';', value, rest);
    AbsentCharNoKey(Key(field), rest, 'y');
    RedactFieldNoKey(field, "ab", ';', rest);
  }

  lemma SecondRunPassB(field: Text, message: Text, value: Text, rest: Text)
    requires field == "b;c" && message == "y=ab;c=1" && value == "1" && rest == ""
    ensures RedactField(field, "ab", ';', message) == "y=ab;c=ab"
  {
    var k := Key(field);
    var t := message[3..];
    assert t == k + value + rest;
    assert message[..3] + (k + "ab") == "y=ab;c=ab";
    RedactFieldAtMatch(field, "ab", ';', value, rest);
    DiffersAt(message, k, 0);
    RedactFieldAtCopy(field, "ab", ';', message);
    DiffersAt(message[1..], k, 0);
    RedactFieldAtCopy(field, "ab", ';', message[1..]);
    DiffersAt(message[2..], k, 0);
    RedactFieldAtCopy(field, "ab", ';', message[2..]);
    assert message[1..][1..] == message[2..] && message[2..][1..] == t;
  }

  lemma SecondRunPassY(field: Text, message: Text, value: Text, rest: Text)
    requires field == "y" && message == "y=ab;c=ab" && value == "ab" && rest == ";c=ab"
    ensures RedactField(field, "ab", ';', message) == message
  {
    assert message == Key(field) + value + rest;
    RedactFieldAtMatch(field, "ab", ';', value, rest);
    AbsentCharNoKey(Key(field), rest, 'y');
    RedactFieldNoKey(field, "ab", ';', rest);
  }

  /** When a field name holds the separator, running the passes a second
      time can change the result: the pass for `y` brings `b;c=` together,
      and only the second run's pass for `b;c` sees it. */
  lemma NotIdempotentWhenFieldHoldsSeparator(fields: seq<Text>, message: Text, once: Text, twice: Text)
    requires fields == ["b;c", "y"]
    requires message == "y=Z;c=1" && once == "y=ab;c=1" && twice == "y=ab;c=ab"
    ensures Filtered(fields, "ab", ';', message) == once
    ensures Filtered(fields, "ab", ';', once) == twice
    ensures once != twice
  {
    assert fields == [fields[0], fields[1]];
    FilteredTwo(fields[0], fields[1], "ab", ';', message);
    FilteredTwo(fields[0], fields[1], "ab", ';', once);
    FirstRunPassB(fields[0], message);
    FirstRunPassY(fields[1], message, "Z", ";c=1");
    SecondRunPassB(fields[0], once, "1", "");
    SecondRunPassY(fields[1], twice, "ab", ";c=ab");
    assert |once| != |twice|;
  }

  lemma LineOfThree(p1: Pair, p2: Pair, p3: Pair, sep: char)
    ensures Line([p1, p2, p3], sep) == (PairText(p1) + [sep]) + (PairText(p2) + [sep]) + (PairText(p3) + [sep])
  {
    assert [p1, p2, p3][1..] == [p2, p3] && [p2, p3][1..] == [p3] && [p3][1..] == [];
    assert Line([p3], sep) == PairText(p3) + [sep];
    assert Line([p2, p3], sep) == PairText(p2) + [sep] + (PairText(p3) + [sep]);
  }

  lemma RedactPairsOfThree(fields: seq<Text>, redaction: Text, p1: Pair, p2: Pair, p3: Pair)
    ensures RedactPairs(fields, redaction, [p1, p2, p3])
            == [RedactPair(fields, redaction, p1), RedactPair(fields, redaction, p2), RedactPair(fields, redaction, p3)]
  {
    assert [p1, p2, p3][1..] == [p2, p3] && [p2, p3][1..] == [p3] && [p3][1..] == [];
    assert RedactPairs(fields, redaction, [p3]) == [RedactPair(fields, redaction, p3)];
  }

  /** The three pairs of the worked example, before and after. */
  lemma ExampleName(key: Text, value: Text)
    requires key == "name" && value == "John Doe"
    ensures PlainPair(Pair(key, value), ';') && PairText(Pair(key, value)) + ";" == "name=John Doe;"
  {
    assert '=' !in key && '=' !in value && ';' !in key && ';' !in value;
  }

  lemma ExampleEmail(key: Text, value: Text)
    requires key == "email" && value == "john@example.com"
    ensures PlainPair(Pair(key, value), ';') && PairText(Pair(key, value)) + ";" == "email=john@example.com;"
  {
    assert '=' !in key && '=' !in value && ';' !in key && ';' !in value;
  }

  lemma ExamplePhone(key: Text, value: Text)
    requires key == "phone" && value == "555-0100"
    ensures PlainPair(Pair(key, value), ';') && PairText(Pair(key, value)) + ";" == "phone=555-0100;"
  {
    assert '=' !in key && '=' !in value && ';' !in key && ';' !in value;
  }

  lemma ExampleRedactedPairs(p1: Pair, p2: Pair, p3: Pair)
    requires p1 == Pair("name", "***") && p2 == Pair("email", "***") && p3 == Pair("phone", "***")
    ensures PairText(p1) + ";" == "name=***;"
    ensures PairText(p2) + ";" == "email=***;"
    ensures PairText(p3) + ";" == "phone=***;"
  {
  }

  /** Each key of the worked example is one of its fields, and no field
      holds the separator. */
  lemma ExampleFields(fields: seq<Text>)
    requires fields == ["name", "email", "phone"]
    ensures KeysWithoutSeparator(fields, ';')
    ensures RedactPair(fields, "***", Pair("name", "John Doe")) == Pair("name", "***")
    ensures RedactPair(fields, "***", Pair("email", "john@example.com")) == Pair("email", "***")
    ensures RedactPair(fields, "***", Pair("phone", "555-0100")) == Pair("phone", "***")
  {
    assert IsSuffix(fields[0], "name") && IsSuffix(fields[1], "email") && IsSuffix(fields[2], "phone");
  }

  /** The worked example of the three common fields. */
  lemma WorkedExample(fields: seq<Text>, message: Text)
    requires fields == ["name", "email", "phone"]
    requires message == "name=John Doe;" + "email=john@example.com;" + "phone=555-0100;"
    ensures Filtered(fields, "***", ';', message) == "name=***;" + "email=***;" + "phone=***;"
  {
    var p1, p2, p3 := Pair("name", "John Doe"), Pair("email", "john@example.com"), Pair("phone", "555-0100");
    var q1, q2, q3 := Pair("name", "***"), Pair("email", "***"), Pair("phone", "***");
    ExampleName(p1.key, p1.value);
    ExampleEmail(p2.key, p2.value);
    ExamplePhone(p3.key, p3.value);
    ExampleRedactedPairs(q1, q2, q3);
    ExampleFields(fields);
    LineOfThree(p1, p2, p3, ';');
    LineOfThree(q1, q2, q3, ';');
    RedactPairsOfThree(fields, "***", p1, p2, p3);
    var ps := [p1, p2, p3];
    assert forall i :: 0 <= i < |ps| ==> PlainPair(ps[i], ';');
    FilteredLine(fields, "***", ';', ps);
  }

  /** The field `e` also redacts the value of `name`: the pattern finds the
      `e=` at the end of `name=`. */
  lemma FieldMatchesInsideKey(fields: seq<Text>, message: Text)
    requires fields == ["e"] && message == "name=John;"
    ensures Filtered(fields, "***", ';', message) == "name=***;"
  {
    var p := Pair("name", "John");
    assert PlainPair(p, ';') && PairText(p) + ";" == message;
    assert PairText(Pair("name", "***")) + ";" == "name=***;";
    assert [p][1..] == [];
    assert Line([p], ';') == message;
    assert KeysWithoutSeparator(fields, ';');
    assert IsSuffix(fields[0], "name");
    assert RedactPairs(fields, "***", [p]) == [Pair("name", "***")];
    FilteredLine(fields, "***", ';', [p]);
  }
}
