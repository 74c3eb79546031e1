/** One substitution pass of filter_datum: `re.sub` with the pattern
    `(FIELD)=[^SEP]*` and the template `\1=REDACTION`, written out as the
    left-to-right scan the regular-expression engine performs.

    The field name is a literal (it holds no metacharacter), the separator is
    one character that stands for itself inside the character class, and the
    redaction holds no backslash; under these conditions the pattern matches
    at a position exactly when the text there starts with FIELD followed by
    `=`, the match runs on to the next separator or to the end of the text,
    and the template writes back FIELD, `=` and the redaction. */
module Redactor {

  type Text = seq<char>

  /** Characters that mean something other than themselves in a regular
      expression outside a character class. */
  predicate IsMetaChar(c: char) {
    c in ".^$*+?{}[]\\|()"
  }

  /** A field name the pattern treats as the literal text it is. */
  predicate IsLiteralField(field: Text) {
    forall i :: 0 <= i < |field| ==> !IsMetaChar(field[i])
  }

  /** The literal text a field's pattern looks for: the name and `=`. */
  function Key(field: Text): Text {
    field + "="
  }

  predicate StartsWith(s: Text, prefix: Text) {
    |prefix| <= |s| && s[..|prefix|] == prefix
  }

  /** `key` occurs somewhere in `s`. */
  predicate Occurs(key: Text, s: Text) {
    exists i :: 0 <= i <= |s| && StartsWith(s[i..], key)
  }

  /** Where a value ends: at the end of the text or at a separator. */
  predicate AtBoundary(s: Text, sep: char) {
    s == [] || s[0] == sep
  }

  /** The length of the text `[^SEP]*` matches at the start of `s`: the
      maximal run of characters other than the separator, possibly empty. */
  function ValueLength(s: Text, sep: char): (n: nat)
    ensures n <= |s|
    ensures sep !in s[..n]
    ensures AtBoundary(s[n..], sep)
  {
    if AtBoundary(s, sep) then 0
    else
      var n := 1 + ValueLength(s[1..], sep);
      assert s[..n] == [s[0]] + s[1..][..n - 1];
      n
  }

  /** One `re.sub` pass for one field: at each position where the key starts,
      the key and the value after it are replaced by the key and the
      redaction, and scanning resumes after the value; every other character
      is copied. */
  function RedactField(field: Text, redaction: Text, sep: char, s: Text): Text
    decreases |s|
  {
    if s == [] then []
    else if StartsWith(s, Key(field)) then
      var rest := s[|Key(field)|..];
      var n := ValueLength(rest, sep);
      Key(field) + redaction + RedactField(field, redaction, sep, rest[n..])
    else
      [s[0]] + RedactField(field, redaction, sep, s[1..])
  }

  // ---------------------------------------------------------------------
  // Facts about the scan
  // ---------------------------------------------------------------------

  /** A value without separators, followed by a boundary, is exactly what
      `[^SEP]*` takes. */
  lemma {:induction false} ValueLengthOf(v: Text, t: Text, sep: char)
    requires sep !in v
    requires AtBoundary(t, sep)
    ensures ValueLength(v + t, sep) == |v|
  {
    if v != [] {
      assert (v + t)[1..] == v[1..] + t;
      ValueLengthOf(v[1..], t, sep);
    }
  }

  /** The pass keeps the first character of a non-empty text, so it keeps a
      boundary a boundary. */
  lemma RedactFieldHead(field: Text, redaction: Text, sep: char, s: Text)
    ensures s == [] ==> RedactField(field, redaction, sep, s) == []
    ensures s != [] ==> |RedactField(field, redaction, sep, s)| > 0
                        && RedactField(field, redaction, sep, s)[0] == s[0]
    ensures AtBoundary(s, sep) ==> AtBoundary(RedactField(field, redaction, sep, s), sep)
  {
    if s != [] && StartsWith(s, Key(field)) {
      assert s[0] == s[..|Key(field)|][0] == Key(field)[0];
    }
  }

  /** A text shorter than the key holds no match and passes through. */
  lemma {:induction false} RedactFieldShort(field: Text, redaction: Text, sep: char, s: Text)
    requires |s| < |Key(field)|
    ensures RedactField(field, redaction, sep, s) == s
    decreases |s|
  {
    if s != [] {
      RedactFieldShort(field, redaction, sep, s[1..]);
    }
  }

  /** Up to the length of the key, the pass leaves the start of the text as
      it was: a match rewrites only what follows its key. */
  lemma {:induction false} RedactFieldPrefix(field: Text, redaction: Text, sep: char, s: Text, n: nat)
    requires n <= |s| && n <= |Key(field)|
    ensures n <= |RedactField(field, redaction, sep, s)|
    ensures RedactField(field, redaction, sep, s)[..n] == s[..n]
    decreases |s|
  {
    var k := Key(field);
    if n == 0 {
    } else if StartsWith(s, k) {
      var rest := s[|k|..];
      var m := ValueLength(rest, sep);
      var r := RedactField(field, redaction, sep, s);
      assert r == k + (redaction + RedactField(field, redaction, sep, rest[m..]));
      assert r[..n] == k[..n] == s[..|k|][..n] == s[..n];
    } else {
      RedactFieldPrefix(field, redaction, sep, s[1..], n - 1);
      var r := RedactField(field, redaction, sep, s);
      assert r == [s[0]] + RedactField(field, redaction, sep, s[1..]);
      assert r[..n] == [s[0]] + RedactField(field, redaction, sep, s[1..])[..n - 1];
      assert s[..n] == [s[0]] + s[1..][..n - 1];
    }
  }

  /** Copying a character that does not start a key cannot make a key start
      there in the output. */
  lemma NoNewKeyBeforeScan(field: Text, redaction: Text, sep: char, c: char, u: Text)
    requires !StartsWith([c] + u, Key(field))
    ensures !StartsWith([c] + RedactField(field, redaction, sep, u), Key(field))
  {
    var k := Key(field);
    var r := RedactField(field, redaction, sep, u);
    if |u| < |k| - 1 {
      RedactFieldShort(field, redaction, sep, u);
    } else {
      RedactFieldPrefix(field, redaction, sep, u, |k| - 1);
    }
  }

  /** The key, a value without separators and a boundary: the pass writes
      the key and the redaction and goes on at the boundary. In particular the
      redaction written back is matched again whole and written back
      unchanged. */
  lemma RedactFieldAtMatch(field: Text, redaction: Text, sep: char, v: Text, t: Text)
    requires sep !in v
    requires AtBoundary(t, sep)
    ensures RedactField(field, redaction, sep, Key(field) + v + t)
            == Key(field) + redaction + RedactField(field, redaction, sep, t)
  {
    var k := Key(field);
    var s := k + v + t;
    assert s[..|k|] == k;
    assert s[|k|..] == v + t;
    ValueLengthOf(v, t, sep);
    assert (v + t)[|v|..] == t;
  }

  /** A text lacking one of the key's characters holds no occurrence of it. */
  lemma AbsentCharNoKey(key: Text, s: Text, c: char)
    requires c in key && c !in s
    ensures !Occurs(key, s)
  {
    forall i | 0 <= i <= |s|
      ensures !StartsWith(s[i..], key)
    {
      var j :| 0 <= j < |key| && key[j] == c;
      if j < |s| - i {
        assert s[i..][j] == s[i + j];
        DiffersAt(s[i..], key, j);
      }
    }
  }

  /** A text that differs from the key at one of its positions does not
      start with it. */
  lemma DiffersAt(s: Text, key: Text, j: nat)
    requires j < |key| && j < |s| && s[j] != key[j]
    ensures !StartsWith(s, key)
  {
  }

  // ---------------------------------------------------------------------
  // Properties of one pass
  // ---------------------------------------------------------------------

  /** A pass for a field whose key does not occur leaves the text unchanged;
      it is not an error. */
  lemma {:induction false} RedactFieldNoKey(field: Text, redaction: Text, sep: char, s: Text)
    requires !Occurs(Key(field), s)
    ensures RedactField(field, redaction, sep, s) == s
    decreases |s|
  {
    if s != [] {
      assert s[0..] == s;
      assert !StartsWith(s, Key(field));
      RedactFieldNoKey(field, redaction, sep, s[1..]);
    }
  }

  /** A pass is idempotent when the redaction holds no separator: the second
      pass matches each `FIELD=REDACTION` again and writes it back as it is,
      and finds no match elsewhere. */
  lemma {:induction false} RedactFieldIdempotent(field: Text, redaction: Text, sep: char, s: Text)
    requires sep !in redaction
    ensures RedactField(field, redaction, sep, RedactField(field, redaction, sep, s))
            == RedactField(field, redaction, sep, s)
    decreases |s|
  {
    var k := Key(field);
    if s == [] {
    } else if StartsWith(s, k) {
      var rest := s[|k|..];
      var n := ValueLength(rest, sep);
      var tail := RedactField(field, redaction, sep, rest[n..]);
      RedactFieldHead(field, redaction, sep, rest[n..]);
      RedactFieldAtMatch(field, redaction, sep, redaction, tail);
      RedactFieldIdempotent(field, redaction, sep, rest[n..]);
    } else {
      var tail := RedactField(field, redaction, sep, s[1..]);
      assert s == [s[0]] + s[1..];
      NoNewKeyBeforeScan(field, redaction, sep, s[0], s[1..]);
      assert ([s[0]] + tail)[1..] == tail;
      RedactFieldIdempotent(field, redaction, sep, s[1..]);
    }
  }

  /** A text that starts with the key is the key, the value `[^SEP]*`
      takes after it, and what follows the value. */
  lemma SplitAtMatch(s: Text, k: Text, n: nat)
    requires StartsWith(s, k) && n <= |s| - |k|
    ensures s == k + s[|k|..][..n] + s[|k|..][n..]
  {
    assert s == s[..|k|] + s[|k|..];
  }

  /** Replacing a separator-free value by a separator-free redaction keeps
      the number of separators. */
  lemma SeparatorsAroundValue(k: Text, v: Text, t: Text, redaction: Text, r: Text, sep: char)
    requires sep !in v && sep !in redaction
    requires multiset(r)[sep] == multiset(t)[sep]
    ensures multiset(k + redaction + r)[sep] == multiset(k + v + t)[sep]
  {
    assert multiset(k + redaction + r) == multiset(k) + multiset(redaction) + multiset(r);
    assert multiset(k + v + t) == multiset(k) + multiset(v) + multiset(t);
  }

  /** When the redaction holds no separator, a pass keeps the number of
      separators: a replaced value never held one. */
  lemma {:induction false} RedactFieldKeepsSeparators(field: Text, redaction: Text, sep: char, s: Text)
    requires sep !in redaction
    ensures multiset(RedactField(field, redaction, sep, s))[sep] == multiset(s)[sep]
    decreases |s|
  {
    var k := Key(field);
    if s == [] {
    } else if StartsWith(s, k) {
      var rest := s[|k|..];
      var n := ValueLength(rest, sep);
      var r := RedactField(field, redaction, sep, rest[n..]);
      RedactFieldKeepsSeparators(field, redaction, sep, rest[n..]);
      SplitAtMatch(s, k, n);
      SeparatorsAroundValue(k, rest[..n], rest[n..], redaction, r, sep);
    } else {
      var r := RedactField(field, redaction, sep, s[1..]);
      RedactFieldKeepsSeparators(field, redaction, sep, s[1..]);
      assert s == [s[0]] + s[1..];
      assert multiset(s) == multiset([s[0]]) + multiset(s[1..]);
      assert multiset([s[0]] + r) == multiset([s[0]]) + multiset(r);
    }
  }

  // ---------------------------------------------------------------------
  // The pass described by the matches it makes
  // ---------------------------------------------------------------------

  /** A message seen as the pass sees it: a character that it copies, or a
      match, the key followed by the value `[^SEP]*` took. */
  datatype Piece = Kept(c: char) | Match(value: Text)

  /** The text a piece stands for in the input. */
  function PieceText(field: Text, p: Piece): Text {
    match p
    case Kept(c) => [c]
    case Match(v) => Key(field) + v
  }

  /** What the template writes for a piece: a kept character as it is, a
      match as the key followed by the redaction. */
  function PieceOutput(field: Text, redaction: Text, p: Piece): Text {
    match p
    case Kept(c) => [c]
    case Match(_) => Key(field) + redaction
  }

  /** The text the pieces stand for. */
  function Joined(field: Text, ps: seq<Piece>): Text
    decreases |ps|
  {
    if ps == [] then [] else PieceText(field, ps[0]) + Joined(field, ps[1..])
  }

  /** The same pieces with every matched value replaced by the redaction and
      every kept character left as it is. */
  function Redacted(field: Text, redaction: Text, ps: seq<Piece>): Text
    decreases |ps|
  {
    if ps == [] then [] else PieceOutput(field, redaction, ps[0]) + Redacted(field, redaction, ps[1..])
  }

  /** The cut the regular-expression engine makes, read from the left: a
      character is kept only where no key starts, and a match's value holds no
      separator and is followed by a separator or by the end of the text. */
  predicate LeftmostCut(field: Text, sep: char, ps: seq<Piece>)
    decreases |ps|
  {
    ps == [] ||
    ((match ps[0]
      case Kept(_) => !StartsWith(Joined(field, ps), Key(field))
      case Match(v) => sep !in v && AtBoundary(Joined(field, ps[1..]), sep))
     && LeftmostCut(field, sep, ps[1..]))
  }

  /** Every text has a leftmost cut. */
  function Cut(field: Text, sep: char, s: Text): (ps: seq<Piece>)
    ensures Joined(field, ps) == s
    ensures LeftmostCut(field, sep, ps)
    decreases |s|
  {
    if s == [] then []
    else if StartsWith(s, Key(field)) then
      var rest := s[|Key(field)|..];
      var n := ValueLength(rest, sep);
      var ps := [Match(rest[..n])] + Cut(field, sep, rest[n..]);
      assert ps[1..] == Cut(field, sep, rest[n..]);
      SplitAtMatch(s, Key(field), n);
      ps
    else
      var ps := [Kept(s[0])] + Cut(field, sep, s[1..]);
      assert ps[1..] == Cut(field, sep, s[1..]);
      ps
  }

  /** The pass replaces exactly the matched values of the leftmost cut and
      copies every kept character, in order. */
  lemma {:induction false} RedactFieldByCut(field: Text, redaction: Text, sep: char, ps: seq<Piece>)
    requires LeftmostCut(field, sep, ps)
    ensures RedactField(field, redaction, sep, Joined(field, ps)) == Redacted(field, redaction, ps)
    decreases |ps|
  {
    if ps != [] {
      var s := Joined(field, ps);
      var t := Joined(field, ps[1..]);
      RedactFieldByCut(field, redaction, sep, ps[1..]);
      FirstPiece(field, sep, ps);
      match ps[0]
      case Kept(c) =>
        assert s[1..] == t;
        RedactFieldAtCopy(field, redaction, sep, s);
      case Match(v) =>
        RedactFieldAtMatch(field, redaction, sep, v, t);
    }
  }

  /** What the first piece of a leftmost cut says about the text: a kept
      character stands where no key starts, a match where one does. */
  lemma FirstPiece(field: Text, sep: char, ps: seq<Piece>)
    requires LeftmostCut(field, sep, ps) && ps != []
    ensures ps[0].Kept? <==> !StartsWith(Joined(field, ps), Key(field))
    ensures ps[0].Kept? ==> Joined(field, ps) == [ps[0].c] + Joined(field, ps[1..])
    ensures ps[0].Match? ==> Joined(field, ps) == Key(field) + ps[0].value + Joined(field, ps[1..])
    ensures ps[0].Match? ==> sep !in ps[0].value && AtBoundary(Joined(field, ps[1..]), sep)
  {
    if ps[0].Match? {
      var s, k := Joined(field, ps), Key(field);
      assert s == k + ps[0].value + Joined(field, ps[1..]);
      assert s[..|k|] == k;
    }
  }

  /** Behind one key, a value without separators that ends at a boundary is
      the only one. */
  lemma MatchDetermined(k: Text, v: Text, t: Text, w: Text, u: Text, sep: char)
    requires k + v + t == k + w + u
    requires sep !in v && sep !in w && AtBoundary(t, sep) && AtBoundary(u, sep)
    ensures v == w && t == u
  {
    var s := k + v + t;
    assert s[|k|..] == v + t == w + u;
    ValueLengthOf(v, t, sep);
    ValueLengthOf(w, u, sep);
    assert v == (v + t)[..|v|];
    assert w == (w + u)[..|w|];
    assert t == (v + t)[|v|..];
    assert u == (w + u)[|w|..];
  }

  /** Two leftmost cuts of one text are the same cut: the matches are
      determined by the text. */
  lemma {:induction false} CutUnique(field: Text, sep: char, ps: seq<Piece>, qs: seq<Piece>)
    requires LeftmostCut(field, sep, ps) && LeftmostCut(field, sep, qs)
    requires Joined(field, ps) == Joined(field, qs)
    ensures ps == qs
    decreases |ps|
  {
    if ps == [] || qs == [] {
      JoinedEmpty(field, ps);
      JoinedEmpty(field, qs);
    } else {
      var s := Joined(field, ps);
      var t, u := Joined(field, ps[1..]), Joined(field, qs[1..]);
      FirstPiece(field, sep, ps);
      FirstPiece(field, sep, qs);
      if ps[0].Kept? {
        assert s[1..] == t == u;
      } else {
        MatchDetermined(Key(field), ps[0].value, t, qs[0].value, u, sep);
      }
      assert ps[0] == qs[0];
      CutUnique(field, sep, ps[1..], qs[1..]);
      assert ps == [ps[0]] + ps[1..];
      assert qs == [qs[0]] + qs[1..];
    }
  }

  lemma JoinedEmpty(field: Text, ps: seq<Piece>)
    ensures Joined(field, ps) == [] <==> ps == []
  {
    if ps != [] {
      match ps[0]
      case Kept(c) =>
      case Match(v) =>
    }
  }

  lemma {:induction false} JoinedAppend(field: Text, ps: seq<Piece>, qs: seq<Piece>)
    ensures Joined(field, ps + qs) == Joined(field, ps) + Joined(field, qs)
    decreases |ps|
  {
    if ps == [] {
      assert ps + qs == qs;
    } else {
      assert (ps + qs)[0] == ps[0];
      assert (ps + qs)[1..] == ps[1..] + qs;
      JoinedAppend(field, ps[1..], qs);
    }
  }

  lemma {:induction false} RedactedAppend(field: Text, redaction: Text, ps: seq<Piece>, qs: seq<Piece>)
    ensures Redacted(field, redaction, ps + qs) == Redacted(field, redaction, ps) + Redacted(field, redaction, qs)
    decreases |ps|
  {
    if ps == [] {
      assert ps + qs == qs;
    } else {
      assert (ps + qs)[0] == ps[0];
      assert (ps + qs)[1..] == ps[1..] + qs;
      RedactedAppend(field, redaction, ps[1..], qs);
    }
  }

  /** Every suffix of a leftmost cut is one. */
  lemma {:induction false} LeftmostCutSuffix(field: Text, sep: char, ps: seq<Piece>, i: nat)
    requires LeftmostCut(field, sep, ps) && i <= |ps|
    ensures LeftmostCut(field, sep, ps[i..])
    decreases i
  {
    if i > 0 {
      LeftmostCutSuffix(field, sep, ps[1..], i - 1);
      assert ps[1..][i - 1..] == ps[i..];
    }
  }

  /** Where the input has a boundary, so has the output at the same piece. */
  lemma RedactedBoundary(field: Text, redaction: Text, sep: char, ps: seq<Piece>)
    requires AtBoundary(Joined(field, ps), sep)
    ensures AtBoundary(Redacted(field, redaction, ps), sep)
  {
    JoinedEmpty(field, ps);
    if ps != [] {
      match ps[0]
      case Kept(c) =>
      case Match(v) =>
        assert Joined(field, ps)[0] == Key(field)[0];
    }
  }

  /** The pieces around piece `i`, in the input and in the output. */
  lemma SplitAtPiece(field: Text, redaction: Text, ps: seq<Piece>, i: nat)
    requires i < |ps|
    ensures Joined(field, ps) == Joined(field, ps[..i]) + PieceText(field, ps[i]) + Joined(field, ps[i + 1..])
    ensures Redacted(field, redaction, ps)
            == Redacted(field, redaction, ps[..i]) + PieceOutput(field, redaction, ps[i]) + Redacted(field, redaction, ps[i + 1..])
  {
    assert ps == ps[..i] + ([ps[i]] + ps[i + 1..]);
    JoinedAppend(field, ps[..i], [ps[i]] + ps[i + 1..]);
    RedactedAppend(field, redaction, ps[..i], [ps[i]] + ps[i + 1..]);
    assert ([ps[i]] + ps[i + 1..])[1..] == ps[i + 1..];
  }

  /** Piece by piece, the output of the pass is the redaction of the pieces
      before, then a kept character as it was or a match rewritten to
      `FIELD=REDACTION`, then the redaction of the pieces after; in the input
      the same piece stands between the same neighbours. A rewritten match is
      followed by a separator or by the end of the output. */
  lemma PieceInOutput(field: Text, redaction: Text, sep: char, ps: seq<Piece>, i: nat)
    requires LeftmostCut(field, sep, ps) && i < |ps|
    ensures Joined(field, ps) == Joined(field, ps[..i]) + PieceText(field, ps[i]) + Joined(field, ps[i + 1..])
    ensures RedactField(field, redaction, sep, Joined(field, ps))
            == Redacted(field, redaction, ps[..i]) + PieceOutput(field, redaction, ps[i]) + Redacted(field, redaction, ps[i + 1..])
    ensures ps[i].Match? ==> AtBoundary(Redacted(field, redaction, ps[i + 1..]), sep)
  {
    SplitAtPiece(field, redaction, ps, i);
    RedactFieldByCut(field, redaction, sep, ps);
    if ps[i].Match? {
      LeftmostCutSuffix(field, sep, ps, i);
      assert ps[i..][0] == ps[i] && ps[i..][1..] == ps[i + 1..];
      RedactedBoundary(field, redaction, sep, ps[i + 1..]);
    }
  }

  // ---------------------------------------------------------------------
  // The pass on separator-delimited segments
  // ---------------------------------------------------------------------

  /** A boundary after the text does not change what `[^SEP]*` takes. */
  lemma {:induction false} ValueLengthBeforeBoundary(x: Text, b: Text, sep: char)
    requires AtBoundary(b, sep)
    ensures ValueLength(x + b, sep) == ValueLength(x, sep)
  {
    if x != [] && x[0] != sep {
      assert (x + b)[1..] == x[1..] + b;
      ValueLengthBeforeBoundary(x[1..], b, sep);
    }
  }

  /** A character of the text at a position the key covers is one of the
      key's characters. */
  lemma KeyCovers(k: Text, s: Text, i: nat)
    ensures StartsWith(s, k) && i < |k| ==> s[i] in k
  {
    if StartsWith(s, k) && i < |k| {
      assert s[i] == s[..|k|][i];
    }
  }

  /** A key without separators that starts before a boundary lies wholly
      before it. */
  lemma KeyBeforeBoundary(k: Text, a: Text, b: Text, sep: char)
    requires sep !in k
    requires AtBoundary(b, sep)
    ensures StartsWith(a + b, k) <==> StartsWith(a, k)
  {
    KeyCovers(k, a + b, |a|);
    if StartsWith(a + b, k) && |k| <= |a| {
      assert (a + b)[..|k|] == a[..|k|];
    }
    if StartsWith(a, k) {
      assert (a + b)[..|k|] == a[..|k|];
    }
  }

  /** At a key, the pass writes the key and the redaction and goes on with
      `t`, the text after the value. */
  lemma RedactFieldAtKey(field: Text, redaction: Text, sep: char, s: Text, t: Text)
    requires StartsWith(s, Key(field))
    requires t == s[|Key(field)|..][ValueLength(s[|Key(field)|..], sep)..]
    ensures RedactField(field, redaction, sep, s) == Key(field) + redaction + RedactField(field, redaction, sep, t)
  {
  }

  lemma DropAppend(a: Text, b: Text, n: nat)
    requires n <= |a|
    ensures (a + b)[n..] == a[n..] + b
  {
  }

  /** Behind a key that starts before a boundary, the value and what follows
      it are those of the text before the boundary, then the boundary. */
  lemma AfterValueBeforeBoundary(k: Text, a: Text, b: Text, sep: char)
    requires sep !in k && AtBoundary(b, sep)
    requires StartsWith(a, k)
    ensures StartsWith(a + b, k)
    ensures var rest, rest' := a[|k|..], (a + b)[|k|..];
            rest'[ValueLength(rest', sep)..] == rest[ValueLength(rest, sep)..] + b
  {
    KeyBeforeBoundary(k, a, b, sep);
    var rest := a[|k|..];
    DropAppend(a, b, |k|);
    ValueLengthBeforeBoundary(rest, b, sep);
    DropAppend(rest, b, ValueLength(rest, sep));
  }

  /** The splitting step at a match: the value stops before the boundary, and
      `t` is what follows it. */
  lemma SplitAtKey(field: Text, redaction: Text, sep: char, a: Text, b: Text, t: Text)
    requires sep !in Key(field) && AtBoundary(b, sep)
    requires StartsWith(a, Key(field))
    requires t == a[|Key(field)|..][ValueLength(a[|Key(field)|..], sep)..]
    requires RedactField(field, redaction, sep, t + b)
             == RedactField(field, redaction, sep, t) + RedactField(field, redaction, sep, b)
    ensures RedactField(field, redaction, sep, a + b)
            == RedactField(field, redaction, sep, a) + RedactField(field, redaction, sep, b)
  {
    var k := Key(field);
    var ab := a + b;
    var x, y := RedactField(field, redaction, sep, t), RedactField(field, redaction, sep, b);
    assert StartsWith(ab, k) && t + b == ab[|k|..][ValueLength(ab[|k|..], sep)..] by {
      AfterValueBeforeBoundary(k, a, b, sep);
    }
    assert RedactField(field, redaction, sep, ab) == k + redaction + (x + y) by {
      RedactFieldAtKey(field, redaction, sep, ab, t + b);
    }
    assert RedactField(field, redaction, sep, a) == k + redaction + x by {
      RedactFieldAtKey(field, redaction, sep, a, t);
    }
    JoinAfterKey(RedactField(field, redaction, sep, ab), RedactField(field, redaction, sep, a), k + redaction, x, y);
  }

  lemma JoinAfterKey(whole: Text, left: Text, head: Text, x: Text, y: Text)
    requires whole == head + (x + y) && left == head + x
    ensures whole == left + y
  {
  }

  /** The splitting step at a copied character. */
  lemma SplitAtCopy(field: Text, redaction: Text, sep: char, a: Text, b: Text)
    requires sep !in Key(field) && AtBoundary(b, sep)
    requires a != [] && !StartsWith(a, Key(field))
    requires RedactField(field, redaction, sep, a[1..] + b)
             == RedactField(field, redaction, sep, a[1..]) + RedactField(field, redaction, sep, b)
    ensures RedactField(field, redaction, sep, a + b)
            == RedactField(field, redaction, sep, a) + RedactField(field, redaction, sep, b)
  {
    var ab := a + b;
    assert ab != [] && !StartsWith(ab, Key(field)) by {
      KeyBeforeBoundary(Key(field), a, b, sep);
    }
    assert ab[0] == a[0] && ab[1..] == a[1..] + b;
    RedactFieldAtCopy(field, redaction, sep, ab);
    RedactFieldAtCopy(field, redaction, sep, a);
    JoinAfterKey(RedactField(field, redaction, sep, ab), RedactField(field, redaction, sep, a), [a[0]],
                 RedactField(field, redaction, sep, a[1..]), RedactField(field, redaction, sep, b));
  }

  /** When the key holds no separator, the pass works on each side of a
      separator on its own: no match reaches across it. */
  lemma {:induction false} RedactFieldSplit(field: Text, redaction: Text, sep: char, a: Text, b: Text)
    requires sep !in Key(field)
    requires AtBoundary(b, sep)
    ensures RedactField(field, redaction, sep, a + b)
            == RedactField(field, redaction, sep, a) + RedactField(field, redaction, sep, b)
    decreases |a|
  {
    var k := Key(field);
    if a == [] {
      assert a + b == b;
    } else if StartsWith(a, k) {
      var rest := a[|k|..];
      var t := rest[ValueLength(rest, sep)..];
      RedactFieldSplit(field, redaction, sep, t, b);
      SplitAtKey(field, redaction, sep, a, b, t);
    } else {
      RedactFieldSplit(field, redaction, sep, a[1..], b);
      SplitAtCopy(field, redaction, sep, a, b);
    }
  }

  /** A redaction holding the separator breaks idempotence: the part of it
      after the separator is scanned again and can hold a new key. */
  lemma NotIdempotentWhenRedactionHoldsSeparator(field: Text, redaction: Text, s: Text, once: Text, twice: Text, rest: Text)
    requires field == "a" && redaction == "x;a"
    requires s == "a=1" && once == "a=x;a" && twice == "a=x;a;a" && rest == ";a"
    ensures RedactField(field, redaction, ';', s) == once
    ensures RedactField(field, redaction, ';', once) == twice
    ensures once != twice
  {
    var k := Key(field);
    assert s == k + s[2..] + [];
    RedactFieldAtMatch(field, redaction, ';', s[2..], []);
    assert once == k + once[2..3] + rest;
    RedactFieldAtMatch(field, redaction, ';', once[2..3], rest);
    assert rest[1..] == field;
    RedactFieldShort(field, redaction, ';', rest[1..]);
    assert rest[..2] != k;
    RedactFieldAtCopy(field, redaction, ';', rest);
    assert |once| != |twice|;
  }

  /** A key holding the separator breaks the split: the match reaches
      across the boundary. */
  lemma NoSplitWhenKeyHoldsSeparator(field: Text, redaction: Text, a: Text, b: Text)
    requires field == "b;c" && redaction == "R"
    requires a == "b" && b == ";c=1"
    ensures RedactField(field, redaction, ';', a + b) == "b;c=R"
    ensures RedactField(field, redaction, ';', a) + RedactField(field, redaction, ';', b) == a + b
    ensures a + b != "b;c=R"
  {
    var k := Key(field);
    assert a + b == k + "1" + [];
    RedactFieldAtMatch(field, redaction, ';', "1", []);
    RedactFieldShort(field, redaction, ';', a);
    assert 'b' in k && 'b' !in b;
    AbsentCharNoKey(k, b, 'b');
    RedactFieldNoKey(field, redaction, ';', b);
    assert (a + b)[4] != "b;c=R"[4];
  }

  /** A separator in front is copied and the pass goes on behind it. */
  lemma RedactFieldAfterSeparator(field: Text, redaction: Text, sep: char, x: Text)
    requires sep !in Key(field)
    ensures RedactField(field, redaction, sep, [sep] + x) == [sep] + RedactField(field, redaction, sep, x)
  {
    var s := [sep] + x;
    KeyCovers(Key(field), s, 0);
    assert s[1..] == x;
  }

  /** Where the first match in a segment ends, if there is one. */
  datatype End = NoEnd | EndAt(at: nat)

  /** The key ends at position `e` of `s`. */
  predicate EndsKeyAt(key: Text, s: Text, e: int) {
    |key| <= e <= |s| && s[e - |key|..e] == key
  }

  /** Where the first occurrence of the key ends, found the way the pass
      finds it: from the left. */
  function KeyEnd(key: Text, s: Text): (r: End)
    requires key != []
    ensures r.EndAt? ==> |key| <= r.at <= |s|
    decreases |s|
  {
    if StartsWith(s, key) then EndAt(|key|)
    else if s == [] then NoEnd
    else
      match KeyEnd(key, s[1..])
      case NoEnd => NoEnd
      case EndAt(e) => EndAt(e + 1)
  }

  /** Occurrences in the tail of a text are those of the text, one further
      on, apart from one at its very start. */
  lemma ShiftEnds(key: Text, s: Text)
    requires key != [] && s != []
    requires !StartsWith(s, key)
    ensures forall e :: 0 <= e <= |s| && EndsKeyAt(key, s, e) ==> 1 <= e && EndsKeyAt(key, s[1..], e - 1)
    ensures forall e :: 0 <= e <= |s[1..]| && EndsKeyAt(key, s[1..], e) ==> EndsKeyAt(key, s, e + 1)
  {
    forall e | 0 <= e <= |s| && EndsKeyAt(key, s, e)
      ensures 1 <= e && EndsKeyAt(key, s[1..], e - 1)
    {
      assert s[1..][e - 1 - |key|..e - 1] == s[e - |key|..e];
    }
    forall e | 0 <= e <= |s[1..]| && EndsKeyAt(key, s[1..], e)
      ensures EndsKeyAt(key, s, e + 1)
    {
      assert s[1..][e - |key|..e] == s[e + 1 - |key|..e + 1];
    }
  }

  /** KeyEnd finds the first end of the key, and NoEnd exactly when the key
      does not occur. */
  lemma {:induction false} KeyEndFirst(key: Text, s: Text)
    requires key != []
    ensures KeyEnd(key, s).EndAt? ==> EndsKeyAt(key, s, KeyEnd(key, s).at)
    ensures KeyEnd(key, s).EndAt? ==> forall e :: 0 <= e < KeyEnd(key, s).at ==> !EndsKeyAt(key, s, e)
    ensures KeyEnd(key, s).NoEnd? ==> forall e :: 0 <= e <= |s| ==> !EndsKeyAt(key, s, e)
    decreases |s|
  {
    if StartsWith(s, key) {
      assert s[|key| - |key|..|key|] == s[..|key|];
    } else if s != [] {
      KeyEndFirst(key, s[1..]);
      ShiftEnds(key, s);
    }
  }

  /** A segment as the pass leaves it: cut after the end of the first key and
      completed with the redaction, or unchanged when no key occurs. */
  function Truncated(redaction: Text, s: Text, end: End): Text
    requires end.EndAt? ==> end.at <= |s|
  {
    match end
    case NoEnd => s
    case EndAt(e) => s[..e] + redaction
  }

  /** A segment that starts with the key is redacted up to its end. */
  lemma SegmentAtKey(field: Text, redaction: Text, sep: char, s: Text)
    requires sep !in s
    requires StartsWith(s, Key(field))
    ensures RedactField(field, redaction, sep, s) == s[..|Key(field)|] + redaction
  {
    var k := Key(field);
    var rest := s[|k|..];
    assert sep !in rest;
    ValueLengthOf(rest, [], sep);
    assert rest + [] == rest;
    assert rest[|rest|..] == [];
    assert RedactField(field, redaction, sep, s) == k + redaction + RedactField(field, redaction, sep, []);
  }

  /** Where no key starts, the pass copies the first character and goes on
      with the rest. */
  lemma RedactFieldAtCopy(field: Text, redaction: Text, sep: char, s: Text)
    requires s != [] && !StartsWith(s, Key(field))
    ensures RedactField(field, redaction, sep, s) == [s[0]] + RedactField(field, redaction, sep, s[1..])
  {
  }

  /** A segment that does not start with the key keeps its first character. */
  lemma SegmentAtCopy(field: Text, redaction: Text, sep: char, s: Text)
    requires s != [] && !StartsWith(s, Key(field))
    requires RedactField(field, redaction, sep, s[1..]) == Truncated(redaction, s[1..], KeyEnd(Key(field), s[1..]))
    ensures RedactField(field, redaction, sep, s) == Truncated(redaction, s, KeyEnd(Key(field), s))
  {
    RedactFieldAtCopy(field, redaction, sep, s);
    match KeyEnd(Key(field), s[1..])
    case NoEnd =>
      assert s == [s[0]] + s[1..];
    case EndAt(e) =>
      assert s[..e + 1] == [s[0]] + s[1..][..e];
  }

  /** On a segment without separators, the pass replaces everything after
      the first key by the redaction. */
  lemma {:induction false} RedactFieldOnSegment(field: Text, redaction: Text, sep: char, s: Text)
    requires sep !in s
    ensures RedactField(field, redaction, sep, s) == Truncated(redaction, s, KeyEnd(Key(field), s))
    decreases |s|
  {
    if StartsWith(s, Key(field)) {
      SegmentAtKey(field, redaction, sep, s);
    } else if s != [] {
      RedactFieldOnSegment(field, redaction, sep, s[1..]);
      SegmentAtCopy(field, redaction, sep, s);
    }
  }

  /** The first end of the key, counting only ends at or before `c`. */
  function Within(end: End, c: nat): (r: End)
    ensures r.EndAt? ==> r.at <= c
  {
    match end
    case EndAt(e) => if e <= c then end else NoEnd
    case NoEnd => NoEnd
  }

  /** In a segment cut at `c` and completed with a redaction that holds no
      `=`, a key (which ends in `=`) ends exactly where it ends in the
      segment at or before `c`. */
  lemma EndsInTruncated(key: Text, redaction: Text, s: Text, c: nat, e: int)
    requires key != [] && key[|key| - 1] == '='
    requires '=' !in redaction
    requires c <= |s|
    ensures EndsKeyAt(key, s[..c] + redaction, e) <==> e <= c && EndsKeyAt(key, s, e)
  {
    var t := s[..c] + redaction;
    if EndsKeyAt(key, t, e) {
      assert t[e - 1] == t[e - |key|..e][|key| - 1];
      assert e <= c;
      assert t[e - |key|..e] == s[e - |key|..e];
    }
    if e <= c && EndsKeyAt(key, s, e) {
      assert t[e - |key|..e] == s[e - |key|..e];
    }
  }

  /** After a segment is cut at `c` and completed with a redaction that
      holds no `=`, the first key end is the segment's own first key end if
      that lies at or before `c`, and there is none otherwise. */
  lemma KeyEndTruncated(key: Text, redaction: Text, s: Text, c: nat)
    requires key != [] && key[|key| - 1] == '='
    requires '=' !in redaction
    requires c <= |s|
    ensures KeyEnd(key, s[..c] + redaction) == Within(KeyEnd(key, s), c)
  {
    var t := s[..c] + redaction;
    KeyEndFirst(key, s);
    KeyEndFirst(key, t);
    forall e | 0 <= e <= |t|
      ensures EndsKeyAt(key, t, e) <==> e <= c && EndsKeyAt(key, s, e)
    {
      EndsInTruncated(key, redaction, s, c, e);
    }
    match KeyEnd(key, s)
    case NoEnd =>
    case EndAt(e) =>
      if e <= c {
        assert EndsKeyAt(key, t, e);
      }
  }
}
