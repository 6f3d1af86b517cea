/** `extract_json_object` of `meemee/providers.py`: a scanner with three variables that finds the first JSON
    object in prose. */
module Extract {
  import opened Text
  import opened Json

  datatype Scan = Scan(depth: int, inStr: bool, escape: bool)

  const START := Scan(0, false, false)

  function Step(s: Scan, c: CodePoint): Scan {
    if s.inStr then
      if s.escape then s.(escape := false)
      else if c == BACKSLASH then s.(escape := true)
      else if c == QUOTE then s.(inStr := false)
      else s
    else if c == QUOTE then s.(inStr := true)
    else if c == OPEN then s.(depth := s.depth + 1)
    else if c == CLOSE then s.(depth := s.depth - 1)
    else s
  }

  function Scanned(s: Scan, w: Str): Scan
    decreases |w|
  {
    if w == [] then s else Scanned(Step(s, w[0]), w[1..])
  }

  /** The depth is at least `d` before the text and after each of its characters. */
  ghost predicate Above(s: Scan, w: Str, d: int)
    decreases |w|
  {
    s.depth >= d && (w == [] || Above(Step(s, w[0]), w[1..], d))
  }

  lemma {:induction false} ScannedAppend(s: Scan, a: Str, b: Str, d: int)
    ensures Scanned(s, a + b) == Scanned(Scanned(s, a), b)
    ensures Above(s, a + b, d) <==> Above(s, a, d) && Above(Scanned(s, a), b, d)
    decreases |a|
  {
    if a == [] {
      assert a + b == b;
    } else {
      assert (a + b)[1..] == a[1..] + b;
      ScannedAppend(Step(s, a[0]), a[1..], b, d);
    }
  }

  // ----- what the scanner sees of JSON texts -----

  function Outside(d: int): Scan {
    Scan(d, false, false)
  }

  /** Outside strings the scanner comes back to where it was and never gets below it. */
  ghost predicate Quiet(w: Str, d: int) {
    Scanned(Outside(d), w) == Outside(d) && Above(Outside(d), w, d)
  }

  lemma QuietConcat(a: Str, b: Str, d: int)
    requires Quiet(a, d) && Quiet(b, d)
    ensures Quiet(a + b, d)
  {
    ScannedAppend(Outside(d), a, b, d);
  }

  lemma {:induction false} QuietPlain(w: Str, d: int)
    requires Plain(w)
    ensures Quiet(w, d)
    decreases |w|
  {
    if w != [] {
      QuietPlain(w[1..], d);
    }
  }

  lemma {:induction false} CharsStayInside(w: Str, d: int)
    requires Chars(w)
    ensures Scanned(Scan(d, true, false), w) == Scan(d, true, false) && Above(Scan(d, true, false), w, d)
    decreases |w|
  {
    if w == [] {
    } else if w[0] >= 32 && w[0] != QUOTE && w[0] != BACKSLASH && Chars(w[1..]) {
      CharsStayInside(w[1..], d);
    } else if w[1] != 117 {
      CharsStayInside(w[2..], d);
      assert w[1..][1..] == w[2..];
    } else {
      CharsStayInside(w[6..], d);
      assert w[..6] + w[6..] == w;
      ScannedAppend(Scan(d, true, false), w[..6], w[6..], d);
      PlainStaysInside(w[2..6], d);
      assert w[..6][1..][1..] == w[2..6];
    }
  }

  lemma {:induction false} PlainStaysInside(w: Str, d: int)
    requires Plain(w)
    ensures Scanned(Scan(d, true, false), w) == Scan(d, true, false) && Above(Scan(d, true, false), w, d)
    decreases |w|
  {
    if w != [] {
      PlainStaysInside(w[1..], d);
    }
  }

  lemma QuietString(w: Str, d: int)
    requires String(w)
    ensures Quiet(w, d)
  {
    var inside := w[1..|w| - 1];
    CharsStayInside(inside, d);
    assert w[1..] == inside + [QUOTE];
    ScannedAppend(Scan(d, true, false), inside, [QUOTE], d);
  }

  lemma {:induction false} QuietValue(w: Str, d: int)
    requires Value(w)
    ensures Quiet(w, d)
    decreases |w|, 1
  {
    if Object(w) {
      ObjectClosesOnce(w, d);
    } else if Array(w) {
      var inside := w[1..|w| - 1];
      if White(inside) {
        QuietPlain(inside, d);
      } else {
        QuietElements(inside, d);
      }
      QuietBrackets(w, d);
    } else if String(w) {
      QuietString(w, d);
    } else if Number(w) {
      NumberIsPlain(w);
      QuietPlain(w, d);
    } else {
      QuietPlain(w, d);
    }
  }

  lemma QuietBrackets(w: Str, d: int)
    requires |w| >= 2 && w[0] == 91 && w[|w| - 1] == 93 && Quiet(w[1..|w| - 1], d)
    ensures Quiet(w, d)
  {
    var inside := w[1..|w| - 1];
    QuietPlain(w[..1], d);
    QuietPlain([93], d);
    QuietConcat(w[..1], inside, d);
    QuietConcat(w[..1] + inside, [93], d);
    assert w[..1] + inside + [93] == w;
  }

  lemma {:induction false} QuietElement(w: Str, d: int)
    requires Element(w)
    ensures Quiet(w, d)
    decreases |w|, 3
  {
    var i, j :| 0 <= i <= j <= |w| && ElementAt(w, i, j);
    QuietPlain(w[..i], d);
    QuietValue(w[i..j], d);
    QuietPlain(w[j..], d);
    QuietConcat(w[..i], w[i..j], d);
    QuietConcat(w[..i] + w[i..j], w[j..], d);
    assert w[..i] + w[i..j] + w[j..] == w;
  }

  /** Two quiet texts around one plain character. */
  lemma QuietJoin(w: Str, k: nat, d: int)
    requires k < |w| && w[k] !in {QUOTE, OPEN, CLOSE, BACKSLASH} && Quiet(w[..k], d) && Quiet(w[k + 1..], d)
    ensures Quiet(w, d)
  {
    QuietPlain([w[k]], d);
    QuietConcat(w[..k], [w[k]], d);
    QuietConcat(w[..k] + [w[k]], w[k + 1..], d);
    assert w[..k] + [w[k]] + w[k + 1..] == w;
  }

  lemma {:induction false} QuietElements(w: Str, d: int)
    requires Elements(w)
    ensures Quiet(w, d)
    decreases |w|, 5
  {
    if Element(w) {
      QuietElement(w, d);
    } else {
      var k :| 0 <= k < |w| && ElementsAt(w, k);
      QuietElement(w[..k], d);
      QuietElements(w[k + 1..], d);
      QuietJoin(w, k, d);
    }
  }

  lemma QuietKey(key: Str, d: int)
    requires Key(key)
    ensures Quiet(key, d)
  {
    var i, j :| 0 <= i <= j <= |key| && KeyAt(key, i, j);
    QuietPlain(key[..i], d);
    QuietString(key[i..j], d);
    QuietPlain(key[j..], d);
    QuietConcat(key[..i], key[i..j], d);
    QuietConcat(key[..i] + key[i..j], key[j..], d);
    assert key[..i] + key[i..j] + key[j..] == key;
  }

  lemma {:induction false} QuietMember(w: Str, d: int)
    requires Member(w)
    ensures Quiet(w, d)
    decreases |w|, 3
  {
    var k :| 0 <= k < |w| && MemberAt(w, k);
    QuietKey(w[..k], d);
    QuietElement(w[k + 1..], d);
    QuietJoin(w, k, d);
  }

  lemma {:induction false} QuietMembers(w: Str, d: int)
    requires Members(w)
    ensures Quiet(w, d)
    decreases |w|, 5
  {
    if Member(w) {
      QuietMember(w, d);
    } else {
      var k :| 0 <= k < |w| && MembersAt(w, k);
      QuietMember(w[..k], d);
      QuietMembers(w[k + 1..], d);
      QuietJoin(w, k, d);
    }
  }

  /** The scanner enters an object at once, stays inside it up to its last character, and leaves it there. */
  lemma {:induction false} ObjectClosesOnce(w: Str, d: int)
    requires Object(w)
    ensures Quiet(w, d)
    ensures forall k | 0 < k < |w| :: Scanned(Outside(d), w[..k]).depth > d
    decreases |w|, 0
  {
    var inside := w[1..|w| - 1];
    if White(inside) {
      QuietPlain(inside, d + 1);
    } else {
      QuietMembers(inside, d + 1);
    }
    assert w[1..] == inside + [CLOSE];
    ScannedAppend(Outside(d + 1), inside, [CLOSE], d + 1);
    ScannedAppend(Outside(d + 1), inside, [CLOSE], d);
    AboveIsMonotone(Outside(d + 1), inside, d + 1);
    forall k | 0 < k < |w| ensures Scanned(Outside(d), w[..k]).depth > d {
      assert w[..k][1..] == inside[..k - 1];
      assert inside[..k - 1] + inside[k - 1..] == inside;
      ScannedAppend(Outside(d + 1), inside[..k - 1], inside[k - 1..], d + 1);
    }
  }

  lemma {:induction false} AboveIsMonotone(s: Scan, w: Str, d: int)
    requires Above(s, w, d)
    ensures Above(s, w, d - 1)
    decreases |w|
  {
    if w != [] {
      AboveIsMonotone(Step(s, w[0]), w[1..], d);
    }
  }

  // ----- the result -----

  ghost predicate ObjectAt(text: Str, p: int, q: int) {
    0 <= p <= q <= |text| && Object(text[p..q])
  }

  /** text[p..q] is an object, and no object starts before p. */
  ghost predicate Leftmost(text: Str, p: int, q: int) {
    ObjectAt(text, p, q) && forall p', q' | p' < p :: !ObjectAt(text, p', q')
  }

  /** At most one object starts at any position. */
  lemma ObjectEndIsUnique(text: Str, p: int, q: int, r: int)
    requires ObjectAt(text, p, q) && ObjectAt(text, p, r)
    ensures q == r
  {
    assert q < r ==> text[p..r][..q - p] == text[p..q];
    assert r < q ==> text[p..q][..r - p] == text[p..r];
    ObjectClosesOnce(text[p..q], 0);
    ObjectClosesOnce(text[p..r], 0);
  }

  lemma LeftmostIsUnique(text: Str, p: int, q: int, p': int, q': int)
    requires Leftmost(text, p, q) && Leftmost(text, p', q')
    ensures p == p' && q == q'
  {
    ObjectEndIsUnique(text, p, q, if p == p' then q' else q);
  }

  /** An object after prose without braces is found whatever follows it. */
  lemma ObjectInProse(prefix: Str, item: Str, suffix: Str)
    requires OPEN !in prefix && Object(item)
    ensures Leftmost(prefix + item + suffix, |prefix|, |prefix| + |item|)
    ensures (prefix + item + suffix)[|prefix|..|prefix| + |item|] == item
  {
    var text := prefix + item + suffix;
    assert text[|prefix|..|prefix| + |item|] == item;
    assert forall p | 0 <= p < |prefix| :: text[p] == prefix[p];
    forall p, q | p < |prefix| ensures !ObjectAt(text, p, q) {
      assert 0 <= p < q <= |text| ==> text[p..q][0] == text[p];
    }
  }

  /** `text.find("{", from)`, with -1 for no such position. */
  function FindOpen(text: Str, from: nat): (r: int)
    ensures r == -1 || from <= r < |text|
    ensures r != -1 ==> text[r] == OPEN
    ensures forall i | from <= i < (if r == -1 then |text| else r) :: text[i] != OPEN
    decreases |text| - from
  {
    if from >= |text| then -1
    else if text[from] == OPEN then from
    else FindOpen(text, from + 1)
  }

  /** The scanner at position i when started at p. */
  ghost function ScanTo(text: Str, p: nat, i: nat): Scan
    requires p <= i <= |text|
  {
    if i == p then START else Step(ScanTo(text, p, i - 1), text[i - 1])
  }

  lemma {:induction false} ScanToIsScanned(text: Str, p: nat, i: nat)
    requires p <= i <= |text|
    ensures ScanTo(text, p, i) == Scanned(START, text[p..i])
    decreases i
  {
    if i == p {
      assert text[p..i] == [];
    } else {
      ScanToIsScanned(text, p, i - 1);
      ScannedAppend(START, text[p..i - 1], [text[i - 1]], 0);
      assert text[p..i - 1] + [text[i - 1]] == text[p..i];
    }
  }

  /** The scanner has not come back to depth zero between p and e. */
  ghost predicate NotBack(text: Str, p: nat, e: nat)
    requires p <= e <= |text|
  {
    forall k | p < k <= e :: ScanTo(text, p, k).depth != 0
  }

  /** text[p..q] is what the scanner hands to the parser when started at a brace at p. */
  ghost predicate Candidate(text: Str, p: int, q: int) {
    && 0 <= p < q <= |text|
    && text[p] == OPEN
    && ScanTo(text, p, q).depth == 0
    && NotBack(text, p, q - 1)
  }

  lemma CandidateIsUnique(text: Str, p: int, q: int, r: int)
    requires Candidate(text, p, q) && Candidate(text, p, r)
    ensures q == r
  {
  }

  /** An object can only end where the scanner first comes back to depth zero. */
  lemma OnlyCandidate(text: Str, p: int, q: int)
    requires ObjectAt(text, p, q)
    ensures Candidate(text, p, q)
  {
    ObjectClosesOnce(text[p..q], 0);
    ScanToIsScanned(text, p, q);
    forall k | p < k <= q - 1 ensures ScanTo(text, p, k).depth != 0 {
      ScanToIsScanned(text, p, k);
      assert text[p..q][..k - p] == text[p..k];
    }
  }

  /** A candidate ends with a closing brace. */
  lemma CandidateShape(text: Str, p: int, q: int)
    requires Candidate(text, p, q)
    ensures p + 1 < q && text[q - 1] == CLOSE
  {
    assert ScanTo(text, p, p + 1) == Step(ScanTo(text, p, p), OPEN);
    NotUnderground(text, p, q - 1);
  }

  lemma {:induction false} NotUnderground(text: Str, p: int, e: int)
    requires 0 <= p < e <= |text| && text[p] == OPEN && NotBack(text, p, e)
    ensures ScanTo(text, p, e).depth > 0
    decreases e
  {
    if e == p + 1 {
      assert ScanTo(text, p, e) == Step(ScanTo(text, p, p), OPEN);
    } else {
      NotUnderground(text, p, e - 1);
    }
  }

  /** Among candidates, the texts that parse are the objects. */
  lemma ParsedCandidate(text: Str, p: int, q: int)
    requires Candidate(text, p, q)
    ensures Element(text[p..q]) <==> ObjectAt(text, p, q)
  {
    CandidateShape(text, p, q);
    BracedElementIsObject(text[p..q]);
  }

  // ----- the parser -----

  /** What `json.loads` does with a text: it returns, or raises JSONDecodeError, RecursionError, or the plain ValueError
      for an integer of too many digits. The limits of the last two are the interpreter's. */
  datatype Verdict = Accepted | Rejected | TooDeep | TooLong

  type Loads = Str -> Verdict

  /** Where no limit strikes, the parser decides the grammar. */
  ghost predicate Agrees(loads: Loads) {
    forall w ::
      && (loads(w) == Accepted ==> Element(w))
      && (loads(w) == Rejected ==> !Element(w))
  }

  /** No limit strikes on any candidate of the text. */
  ghost predicate Unlimited(text: Str, loads: Loads) {
    forall p, q | Candidate(text, p, q) :: loads(text[p..q]) in {Accepted, Rejected}
  }

  /** The object, or one of the two ModelErrors, or the ValueError that escapes. */
  datatype Outcome = Found(item: Str) | NoObject | NestedTooDeeply | TooManyDigits

  /** The leftmost candidate that the parser does not reject. */
  ghost predicate Decisive(text: Str, loads: Loads, p: int, q: int) {
    && Candidate(text, p, q)
    && loads(text[p..q]) != Rejected
    && forall p', q' | p' < p && Candidate(text, p', q') :: loads(text[p'..q']) == Rejected
  }

  function OutcomeOf(verdict: Verdict, candidate: Str): Outcome {
    match verdict
    case Accepted => Found(candidate)
    case Rejected => NoObject
    case TooDeep => NestedTooDeeply
    case TooLong => TooManyDigits
  }

  /** The parser's verdict on the decisive candidate is the outcome; without one there is no object. */
  ghost predicate Decided(text: Str, loads: Loads, r: Outcome) {
    if r.NoObject? then forall p, q | Candidate(text, p, q) :: loads(text[p..q]) == Rejected
    else exists p, q :: Decisive(text, loads, p, q) && r == OutcomeOf(loads(text[p..q]), text[p..q])
  }

  lemma OutcomeIsUnique(text: Str, loads: Loads, r: Outcome, r': Outcome)
    requires Decided(text, loads, r) && Decided(text, loads, r')
    ensures r == r'
  {
    if !r.NoObject? && !r'.NoObject? {
      var p, q :| Decisive(text, loads, p, q) && r == OutcomeOf(loads(text[p..q]), text[p..q]);
      var p', q' :| Decisive(text, loads, p', q') && r' == OutcomeOf(loads(text[p'..q']), text[p'..q']);
      assert p == p';
      CandidateIsUnique(text, p, q, q');
    }
  }

  /** Nothing that starts before the decisive candidate is an object; it is one itself if the parser accepts it. */
  lemma DecisiveIsLeftmost(text: Str, loads: Loads, p: int, q: int)
    requires Agrees(loads) && Decisive(text, loads, p, q)
    ensures forall p', q' | p' < p :: !ObjectAt(text, p', q')
    ensures loads(text[p..q]) == Accepted ==> Leftmost(text, p, q)
  {
    forall p', q' | p' < p ensures !ObjectAt(text, p', q') {
      if ObjectAt(text, p', q') {
        OnlyCandidate(text, p', q');
        ParsedCandidate(text, p', q');
      }
    }
    ParsedCandidate(text, p, q);
  }

  /** What an outcome says about objects: a found text is the leftmost object; no object means that there is none; and
      where no limit strikes, one of the two is the outcome. */
  lemma OutcomeMeans(text: Str, loads: Loads, r: Outcome)
    requires Decided(text, loads, r)
    ensures Agrees(loads) && r.Found? ==> exists p, q :: Leftmost(text, p, q) && r.item == text[p..q]
    ensures Agrees(loads) && r.NoObject? ==> forall p, q :: !ObjectAt(text, p, q)
    ensures Agrees(loads) && Unlimited(text, loads) ==>
      (r.Found? || r.NoObject?) && (r.NoObject? <==> forall p, q :: !ObjectAt(text, p, q))
  {
    if !Agrees(loads) {
    } else if r.NoObject? {
      forall p, q ensures !ObjectAt(text, p, q) {
        if ObjectAt(text, p, q) {
          OnlyCandidate(text, p, q);
          ParsedCandidate(text, p, q);
        }
      }
    } else {
      var p, q :| Decisive(text, loads, p, q) && r == OutcomeOf(loads(text[p..q]), text[p..q]);
      DecisiveIsLeftmost(text, loads, p, q);
    }
  }

  // ----- the search -----

  /** The inner loop: the first position after `start` where the scanner is back at depth zero. */
  method CandidateEnd(text: Str, start: nat) returns (end: Option<nat>)
    requires start < |text| && text[start] == OPEN
    ensures end.Some? ==> Candidate(text, start, end.value)
    ensures end.None? ==> forall e :: !Candidate(text, start, e)
  {
    var depth, inStr, escape := 0, false, false;
    for i := start to |text|
      invariant ScanTo(text, start, i) == Scan(depth, inStr, escape)
      invariant NotBack(text, start, i)
      invariant if i == start then depth == 0 && !inStr else depth >= 1
    {
      var ch := text[i];
      if inStr {
        if escape {
          escape := false;
        } else if ch == BACKSLASH {
          escape := true;
        } else if ch == QUOTE {
          inStr := false;
        }
      } else if ch == QUOTE {
        inStr := true;
      } else if ch == OPEN {
        depth := depth + 1;
      } else if ch == CLOSE {
        depth := depth - 1;
        if depth == 0 {
          return Some(i + 1);
        }
      }
    }
    return None;
  }

  /** The leftmost candidate that parses, or what stopped the search. */
  method ExtractJsonObject(text: Str, loads: Loads) returns (r: Outcome)
    ensures Decided(text, loads, r)
    ensures Agrees(loads) && r.Found? ==> exists p, q :: Leftmost(text, p, q) && r.item == text[p..q]
    ensures Agrees(loads) && r.NoObject? ==> forall p, q :: !ObjectAt(text, p, q)
    ensures Agrees(loads) && Unlimited(text, loads) ==>
      (r.Found? || r.NoObject?) && (r.NoObject? <==> forall p, q :: !ObjectAt(text, p, q))
  {
    var start := FindOpen(text, 0);
    while start != -1
      invariant start == -1 || (0 <= start < |text| && text[start] == OPEN)
      invariant forall p, q | p < (if start == -1 then |text| else start) && Candidate(text, p, q) ::
        loads(text[p..q]) == Rejected
      decreases if start == -1 then 0 else |text| - start
    {
      var end := CandidateEnd(text, start);
      if end.Some? {
        var candidate := text[start..end.value];
        if loads(candidate) != Rejected {
          assert Decisive(text, loads, start, end.value);
          r := OutcomeOf(loads(candidate), candidate);
          OutcomeMeans(text, loads, r);
          return;
        }
        assert forall e | Candidate(text, start, e) :: e == end.value;
      }
      start := FindOpen(text, start + 1);
    }
    r := NoObject;
    OutcomeMeans(text, loads, r);
  }
}
