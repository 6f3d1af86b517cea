/** JSON texts as `json.loads` accepts them: the grammar of RFC 8259 (sections 2 to 7), written as predicates on
    texts, with Python's three extra constants. */
module Json {
  import opened Text

  const QUOTE: CodePoint := 34
  const BACKSLASH: CodePoint := 92
  const OPEN: CodePoint := 123
  const CLOSE: CodePoint := 125

  predicate White(w: Str) {
    forall i | 0 <= i < |w| :: w[i] == 9 || w[i] == 10 || w[i] == 13 || w[i] == 32
  }

  predicate Digit(c: CodePoint) {
    48 <= c <= 57
  }

  predicate Hex(c: CodePoint) {
    Digit(c) || 65 <= c <= 70 || 97 <= c <= 102
  }

  predicate AllDigits(w: Str) {
    forall i | 0 <= i < |w| :: Digit(w[i])
  }

  /** The inside of a string: unescaped characters and escapes. */
  predicate Chars(w: Str)
    decreases |w|
  {
    || w == []
    || (w[0] >= 32 && w[0] != QUOTE && w[0] != BACKSLASH && Chars(w[1..]))
    || (|w| >= 2 && w[0] == BACKSLASH && w[1] in {34, 47, 92, 98, 102, 110, 114, 116} && Chars(w[2..]))
    || (|w| >= 6 && w[0] == BACKSLASH && w[1] == 117 && Hex(w[2]) && Hex(w[3]) && Hex(w[4]) && Hex(w[5])
        && Chars(w[6..]))
  }

  predicate String(w: Str) {
    |w| >= 2 && w[0] == QUOTE && w[|w| - 1] == QUOTE && Chars(w[1..|w| - 1])
  }

  predicate IntPart(w: Str) {
    w != [] && AllDigits(w) && (w[0] == 48 ==> |w| == 1)
  }

  predicate FracPart(w: Str) {
    w == [] || (|w| >= 2 && w[0] == 46 && AllDigits(w[1..]))
  }

  predicate ExpPart(w: Str) {
    || w == []
    || (|w| >= 2 && w[0] in {69, 101} && AllDigits(w[1..]))
    || (|w| >= 3 && w[0] in {69, 101} && w[1] in {43, 45} && AllDigits(w[2..]))
  }

  predicate NumberAt(w: Str, i: nat, j: nat, k: nat)
    requires i <= j <= k <= |w|
  {
    (i == 0 || w[..i] == [45]) && IntPart(w[i..j]) && FracPart(w[j..k]) && ExpPart(w[k..])
  }

  predicate Number(w: Str) {
    exists i, j, k | 0 <= i <= j <= k <= |w| :: NumberAt(w, i, j, k)
  }

  predicate Literal(w: Str) {
    w in {Codes("true"), Codes("false"), Codes("null"), Codes("NaN"), Codes("Infinity"), Codes("-Infinity")}
  }

  predicate Value(w: Str)
    decreases |w|, 1
  {
    Object(w) || Array(w) || String(w) || Number(w) || Literal(w)
  }

  predicate ElementAt(w: Str, i: nat, j: nat)
    requires i <= j <= |w|
    decreases |w|, 2
  {
    White(w[..i]) && Value(w[i..j]) && White(w[j..])
  }

  /** A value between optional whitespace; also a whole JSON text. */
  predicate Element(w: Str)
    decreases |w|, 3
  {
    exists i, j | 0 <= i <= j <= |w| :: ElementAt(w, i, j)
  }

  predicate ElementsAt(w: Str, k: nat)
    requires k < |w|
    decreases |w|, 4
  {
    w[k] == 44 && Element(w[..k]) && Elements(w[k + 1..])
  }

  predicate Elements(w: Str)
    decreases |w|, 5
  {
    Element(w) || exists k | 0 <= k < |w| :: ElementsAt(w, k)
  }

  predicate Array(w: Str)
    decreases |w|, 0
  {
    |w| >= 2 && w[0] == 91 && w[|w| - 1] == 93 && (White(w[1..|w| - 1]) || Elements(w[1..|w| - 1]))
  }

  predicate KeyAt(w: Str, i: nat, j: nat)
    requires i <= j <= |w|
  {
    White(w[..i]) && String(w[i..j]) && White(w[j..])
  }

  predicate Key(w: Str) {
    exists i, j | 0 <= i <= j <= |w| :: KeyAt(w, i, j)
  }

  predicate MemberAt(w: Str, k: nat)
    requires k < |w|
    decreases |w|, 2
  {
    w[k] == 58 && Key(w[..k]) && Element(w[k + 1..])
  }

  predicate Member(w: Str)
    decreases |w|, 3
  {
    exists k | 0 <= k < |w| :: MemberAt(w, k)
  }

  predicate MembersAt(w: Str, k: nat)
    requires k < |w|
    decreases |w|, 4
  {
    w[k] == 44 && Member(w[..k]) && Members(w[k + 1..])
  }

  predicate Members(w: Str)
    decreases |w|, 5
  {
    Member(w) || exists k | 0 <= k < |w| :: MembersAt(w, k)
  }

  predicate Object(w: Str)
    decreases |w|, 0
  {
    |w| >= 2 && w[0] == OPEN && w[|w| - 1] == CLOSE && (White(w[1..|w| - 1]) || Members(w[1..|w| - 1]))
  }

  predicate Plain(w: Str) {
    forall i | 0 <= i < |w| :: w[i] != QUOTE && w[i] != OPEN && w[i] != CLOSE && w[i] != BACKSLASH
  }

  lemma FracIsPlain(w: Str)
    requires FracPart(w)
    ensures Plain(w)
  {
    assert forall n | 1 <= n < |w| :: w[n] == w[1..][n - 1];
  }

  lemma ExpIsPlain(w: Str)
    requires ExpPart(w)
    ensures Plain(w)
  {
    assert forall n | 1 <= n < |w| :: w[n] == w[1..][n - 1];
    assert forall n | 2 <= n < |w| :: w[n] == w[2..][n - 2];
  }

  lemma NumberIsPlain(w: Str)
    requires Number(w)
    ensures w != [] && Plain(w)
  {
    var i, j, k :| 0 <= i <= j <= k <= |w| && NumberAt(w, i, j, k);
    FracIsPlain(w[j..k]);
    ExpIsPlain(w[k..]);
    forall n | 0 <= n < |w| ensures w[n] != QUOTE && w[n] != OPEN && w[n] != CLOSE && w[n] != BACKSLASH {
      if n < i {
        assert w[..i][n] == w[n];
      } else if n < j {
        assert w[i..j][n - i] == w[n];
      } else if n < k {
        assert w[j..k][n - j] == w[n];
      } else {
        assert w[k..][n - k] == w[n];
      }
    }
  }

  lemma BracedValue(w: Str)
    requires |w| >= 2 && w[0] == OPEN && Value(w)
    ensures Object(w)
  {
    assert !Array(w) && !String(w);
    assert !Literal(w) by {
      assert Codes("true")[0] == 116 && Codes("false")[0] == 102 && Codes("null")[0] == 110 && Codes("NaN")[0] == 78;
      assert Codes("Infinity")[0] == 73 && Codes("-Infinity")[0] == 45;
    }
    if Number(w) {
      NumberIsPlain(w);
    }
  }

  lemma BracedElement(w: Str)
    requires |w| >= 2 && w[0] == OPEN && w[|w| - 1] == CLOSE && Element(w)
    ensures Object(w)
  {
    assert forall n | 0 < n <= |w| :: w[..n][0] == OPEN;
    assert forall n | 0 <= n < |w| :: w[n..][|w| - n - 1] == CLOSE;
    var i, j :| 0 <= i <= j <= |w| && ElementAt(w, i, j);
    assert i == 0 && j == |w| && w[i..j] == w;
    BracedValue(w);
  }

  lemma ObjectIsElement(w: Str)
    requires Object(w)
    ensures Element(w)
  {
    assert w[..0] == [] && w[0..|w|] == w && w[|w|..] == [];
    assert ElementAt(w, 0, |w|);
  }

  /** A JSON text without outer whitespace that starts with a brace is an object. */
  lemma BracedElementIsObject(w: Str)
    requires |w| >= 2 && w[0] == OPEN && w[|w| - 1] == CLOSE
    ensures Element(w) <==> Object(w)
  {
    if Element(w) {
      BracedElement(w);
    }
    if Object(w) {
      ObjectIsElement(w);
    }
  }
}
