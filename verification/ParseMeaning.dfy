/** The parser accepts exactly the texts of the grammar that nest at most 1000 deep, each as the document it denotes. */
module ParseMeaning {
  import opened CStrings
  import opened Json
  import opened Rendering
  import opened StringReader
  import opened Parsing
  import opened Grammar
  import opened StringMeaning

  /** What reading a value gives when that many containers are open at its deepest place. */
  ghost function Within<T>(levels: nat, value: T, next: nat): Parsed<T> {
    if levels <= NESTING_LIMIT then Parsed(value, next) else Failed
  }

  // White space

  lemma Landing(c: Bytes, o: nat, q: nat)
    requires NulTerminated(c) && Space(c, o, q) && q < |c| && c[q] > 32
    ensures SkipSpace(c, o) == q
  {
  }

  lemma Skipped(c: Bytes, o: nat)
    requires NulTerminated(c) && o < |c|
    ensures Space(c, o, SkipSpace(c, o))
    ensures SkipSpace(c, SkipSpace(c, o)) == SkipSpace(c, o)
  {
    var p := SkipRun(c, o);
    if p == |c| {
      ToTheEnd(c, |c| - 1);
    }
  }

  lemma ToTheEnd(c: Bytes, o: nat)
    requires NulTerminated(c) && o == |c| - 1
    ensures SkipSpace(c, o) == o
  {
    assert SkipRun(c, o) == SkipRun(c, o + 1) == |c|;
  }

  // Numbers

  /** The copying loop stops only where it has to. */
  lemma {:induction false} NumberTextStopsThere(c: Bytes, o: nat, room: nat)
    requires o <= |c|
    ensures var n := |NumberText(c, o, room)|; n == room || o + n == |c| || !InNumber(c[o+n])
    decreases room
  {
    if room > 0 && o < |c| && NumberByte(c[o]) {
      NumberTextStopsThere(c, o + 1, room - 1);
    }
  }

  /** It copies the run, and there is only one. */
  lemma NumberTextIsRun(c: Bytes, o: nat)
    requires o <= |c|
    ensures var r := o + |NumberText(c, o, 63)|; Run(c, o, r) && RunText(c, o, r) == NumberText(c, o, 63)
    ensures forall r: nat :: Run(c, o, r) ==> r == o + |NumberText(c, o, 63)|
  {
    hide NumberText;
    var t := NumberText(c, o, 63);
    NumberTextStopsThere(c, o, 63);
    forall i | o <= i < o + |t| ensures InNumber(c[i]) {
      assert t[i-o] == c[o+(i-o)];
    }
    assert Run(c, o, o + |t|);
    assert c[o..o+|t|] == t;
  }

  lemma NumberExactly(c: Bytes, o: nat, k: nat, j: Json, f: Strtod)
    requires NulTerminated(c) && o < |c|
    ensures (c[o] == 45 || 48 <= c[o] <= 57) && ParseNumber(c, o, f) == Parsed(j, k) <==> j.Number? && NumberAt(c, o, k, j.n, f)
  {
    hide NumberText, Run, NulTerminated, SkipRun;
    NumberTextIsRun(c, o);
    NumberTextStops(c, o);
    var r := o + |NumberText(c, o, 63)|;
    assert f(RunText(c, o, r)).1 <= |RunText(c, o, r)|;
  }

  // Words

  lemma WordExactly(c: Bytes, o: nat, text: CStr)
    requires o <= |c| && text != []
    ensures StartsWith(c, o, text) <==> Word(c, o, o + |text|, text)
    ensures StartsWith(c, o, text) ==> o < |c| && c[o] == text[0]
  {
    if StartsWith(c, o, text) {
      assert c[o] == c[o..o+|text|][0];
    }
  }

  /** No word stands where another kind of value starts. */
  lemma NotWord(c: Bytes, o: nat)
    requires o < |c| && c[o] != 110 && c[o] != 102 && c[o] != 116
    ensures !StartsWith(c, o, NULL_TEXT) && !StartsWith(c, o, FALSE_TEXT) && !StartsWith(c, o, TRUE_TEXT)
  {
    hide StartsWith;
    WordExactly(c, o, NULL_TEXT);
    WordExactly(c, o, FALSE_TEXT);
    WordExactly(c, o, TRUE_TEXT);
  }

  // Values

  /** The first byte of a value tells its kind. */
  predicate Starts(j: Json, b: Byte) {
    match j
    case Null => b == 110
    case False => b == 102
    case True => b == 116
    case Number(_) => b == 45 || 48 <= b <= 57
    case Text(_) => b == 34
    case Array(_) => b == 91
    case Object(_) => b == 123
    case _ => false
  }

  lemma FirstByte(c: Bytes, o: nat, k: nat, j: Json, f: Strtod)
    requires ValueAt(c, o, k, j, f)
    ensures o < k <= |c| && Starts(j, c[o]) && c[o] > 32
  {
    hide ElementsAt, MembersAt, StringAt, NumberAt;
    if j.Null? || j.False? || j.True? {
      assert c[o] == c[o..k][0];
    } else if j.Number? {
      FirstOfNumber(c, o, k, j.n, f);
    } else if j.Text? {
      FirstOfString(c, o, k, j.s);
    }
  }

  lemma FirstOfNumber(c: Bytes, o: nat, k: nat, n: Num, f: Strtod)
    requires NumberAt(c, o, k, n, f)
    ensures o < k <= |c| && (c[o] == 45 || 48 <= c[o] <= 57)
  {
  }

  lemma FirstOfString(c: Bytes, o: nat, k: nat, s: CStr)
    requires StringAt(c, o, k, s)
    ensures o < k <= |c| && c[o] == 34
  {
  }

  lemma WordsExactly(c: Bytes, o: nat, depth: nat, f: Strtod, j: Json, k: nat)
    requires NulTerminated(c) && o < |c| && (c[o] == 110 || c[o] == 102 || c[o] == 116)
    ensures ParseValue(c, o, depth, f) == Parsed(j, k) <==> ValueAt(c, o, k, j, f)
  {
    hide StartsWith, NulTerminated, ElementsAt, MembersAt, StringAt, NumberAt, ParseString, ParseNumber, ParseArray, ParseObject;
    WordExactly(c, o, NULL_TEXT);
    WordExactly(c, o, FALSE_TEXT);
    WordExactly(c, o, TRUE_TEXT);
    if ValueAt(c, o, k, j, f) {
      FirstByte(c, o, k, j, f);
      assert |c[o..k]| == k - o;
    }
  }

  /** Reading a value gives what stands there and no further, or fails because it nests too deep. */
  lemma {:induction false} ValueExactly(c: Bytes, o: nat, depth: nat, f: Strtod, j: Json, k: nat)
    requires NulTerminated(c) && o < |c| && depth <= NESTING_LIMIT
    ensures ParseValue(c, o, depth, f) == Parsed(j, k) ==> ValueAt(c, o, k, j, f) && depth + Nesting(j) <= NESTING_LIMIT
    ensures ValueAt(c, o, k, j, f) ==> ParseValue(c, o, depth, f) == Within(depth + Nesting(j), j, k)
    decreases |c| - o, 1
  {
    hide NulTerminated, StartsWith, ParseString, ParseNumber, ParseArray, ParseObject, ElementsAt, MembersAt, StringAt, NumberAt,
         DeepestElement, DeepestMember, Space;
    if ValueAt(c, o, k, j, f) {
      FirstByte(c, o, k, j, f);
    }
    if c[o] == 110 || c[o] == 102 || c[o] == 116 {
      WordsExactly(c, o, depth, f, j, k);
    } else {
      NotWord(c, o);
      if c[o] == 34 {
        StringExactly(c, o, k, if j.Text? then j.s else []);
      } else if c[o] == 45 || 48 <= c[o] <= 57 {
        NumberExactly(c, o, k, j, f);
      } else if c[o] == 91 {
        ArrayExactly(c, o, depth, f, if j.Array? then j.elems else [], k);
        ArrayIsArray(c, o, depth, f);
      } else if c[o] == 123 {
        ObjectExactly(c, o, depth, f, if j.Object? then j.members else [], k);
        ObjectIsObject(c, o, depth, f);
      }
    }
  }

  lemma ArrayIsArray(c: Bytes, o: nat, depth: nat, f: Strtod)
    requires NulTerminated(c) && o < |c| && c[o] == 91
    ensures var r := ParseArray(c, o, depth, f); r.Parsed? ==> r.value.Array?
  {
    hide ParseElements, SkipSpace;
  }

  lemma ObjectIsObject(c: Bytes, o: nat, depth: nat, f: Strtod)
    requires NulTerminated(c) && o < |c| && c[o] == 123
    ensures var r := ParseObject(c, o, depth, f); r.Parsed? ==> r.value.Object?
  {
    hide ParseMembers, SkipSpace;
  }

  /** What stands between the brackets of an array. */
  ghost predicate Bracketed(c: Bytes, o: nat, k: nat, es: seq<Json>, f: Strtod) {
    o + 2 <= k <= |c| && c[k-1] == 93 && if es == [] then Space(c, o + 1, k - 1) else ElementsAt(c, o + 1, k - 1, es, f)
  }

  lemma ArrayAt(c: Bytes, o: nat, k: nat, es: seq<Json>, f: Strtod)
    ensures ValueAt(c, o, k, Array(es), f) <==> o < |c| && c[o] == 91 && Bracketed(c, o, k, es, f)
  {
    hide ElementsAt, Space;
  }

  lemma {:induction false} ArrayExactly(c: Bytes, o: nat, depth: nat, f: Strtod, es: seq<Json>, k: nat)
    requires NulTerminated(c) && o < |c| && c[o] == 91 && depth <= NESTING_LIMIT
    ensures ParseArray(c, o, depth, f) == Parsed(Array(es), k) ==>
            Bracketed(c, o, k, es, f) && depth + Nesting(Array(es)) <= NESTING_LIMIT
    ensures Bracketed(c, o, k, es, f) ==> ParseArray(c, o, depth, f) == Within(depth + Nesting(Array(es)), Array(es), k)
    decreases |c| - o, 0
  {
    hide NulTerminated, SkipSpace, SkipRun, ParseElements, ElementsAt, DeepestElement, Space;
    InFront(c, o);
    Skipped(c, o + 1);
    var p := SkipSpace(c, o + 1);
    if es == [] {
      EmptyBrackets(c, o, k, 93);
      NoneDeep();
      if c[p] != 93 && depth < NESTING_LIMIT {
        SomeElements(c, p, depth + 1, f);
      }
    } else if depth < NESTING_LIMIT {
      ElementsFrom(c, o + 1, depth + 1, f);
      ElementsExactly(c, o + 1, depth + 1, f, es, k);
      if Bracketed(c, o, k, es, f) {
        ElementsStart(c, o + 1, k - 1, es, f);
      }
      if ParseElements(c, o + 1, depth + 1, f) == Parsed(es, k) {
        AtLeastOne(c, o + 1, depth + 1, f);
      }
    }
  }

  lemma InFront(c: Bytes, o: nat)
    requires NulTerminated(c) && o < |c| && c[o] != 0
    ensures o + 1 < |c|
  {
  }

  lemma NoneDeep()
    ensures DeepestElement([]) == 0 && DeepestMember([]) == 0
  {
  }

  /** Empty brackets have nothing but white space between them. */
  lemma EmptyBrackets(c: Bytes, o: nat, k: nat, close: Byte)
    requires NulTerminated(c) && o + 1 < |c| && close > 32
    ensures o + 2 <= k <= |c| && c[k-1] == close && Space(c, o + 1, k - 1) <==>
            c[SkipSpace(c, o + 1)] == close && k == SkipSpace(c, o + 1) + 1
  {
    hide SkipSpace, SkipRun;
    Skipped(c, o + 1);
    if o + 2 <= k <= |c| && c[k-1] == close && Space(c, o + 1, k - 1) {
      Landing(c, o + 1, k - 1);
    }
  }

  lemma SomeElements(c: Bytes, o: nat, depth: nat, f: Strtod)
    requires NulTerminated(c) && o < |c|
    ensures var r := ParseElements(c, o, depth, f); r.Parsed? ==> r.value != []
  {
    hide ParseElement;
  }

  /** Skipping ahead makes no difference. */
  lemma ElementsFrom(c: Bytes, o: nat, depth: nat, f: Strtod)
    requires NulTerminated(c) && o < |c|
    ensures ParseElements(c, SkipSpace(c, o), depth, f) == ParseElements(c, o, depth, f)
  {
    hide ParseValue, SkipSpace;
    Skipped(c, o);
    ElementsStep(c, o, depth, f);
    ElementsStep(c, SkipSpace(c, o), depth, f);
  }

  /** The elements start with one of them, not with a bracket. */
  lemma ElementsStart(c: Bytes, o: nat, k: nat, es: seq<Json>, f: Strtod)
    requires NulTerminated(c) && es != [] && ElementsAt(c, o, k, es, f)
    ensures o < |c| && c[SkipSpace(c, o)] != 93
  {
    hide NulTerminated, SkipSpace, SkipRun, ValueAt, SpacedAt, Space;
    if |es| == 1 {
      SpacedStart(c, o, k, es[0], f);
    } else {
      var r: nat :| r < |c| && SpacedAt(c, o, r, es[0], f) && c[r] == 44 && ElementsAt(c, r + 1, k, es[1..], f);
      SpacedStart(c, o, r, es[0], f);
    }
  }

  lemma SpacedStart(c: Bytes, o: nat, k: nat, j: Json, f: Strtod)
    requires NulTerminated(c) && SpacedAt(c, o, k, j, f)
    ensures o < |c| && Starts(j, c[SkipSpace(c, o)])
  {
    hide SkipSpace, SkipRun, ValueAt;
    var p: nat, q: nat :| Space(c, o, p) && ValueAt(c, p, q, j, f) && Space(c, q, k);
    FirstByte(c, p, q, j, f);
    Landing(c, o, p);
  }

  /** And what is read as elements does not start with one. */
  lemma AtLeastOne(c: Bytes, o: nat, depth: nat, f: Strtod)
    requires NulTerminated(c) && o < |c| && ParseElements(c, o, depth, f).Parsed?
    ensures c[SkipSpace(c, o)] != 93 && c[SkipSpace(c, o)] != 125
  {
    hide ParseString, ParseNumber, ParseArray, ParseObject, SkipSpace, StartsWith, ParseElements;
    ElementsStep(c, o, depth, f);
    if c[SkipSpace(c, o)] == 93 || c[SkipSpace(c, o)] == 125 {
      NotWord(c, SkipSpace(c, o));
    }
  }

  /** What is read behind an element. */
  ghost function AfterElement(c: Bytes, first: Parsed<Json>, depth: nat, f: Strtod): Parsed<seq<Json>>
    requires NulTerminated(c) && (first.Parsed? ==> first.next < |c|)
  {
    match first
    case Failed => Failed
    case Parsed(x, b) =>
      if c[b] == 44 then
        var rest := ParseElements(c, b + 1, depth, f);
        if rest.Failed? then Failed else Parsed([x] + rest.value, rest.next)
      else if c[b] == 93 then Parsed([x], b + 1)
      else Failed
  }

  lemma ElementsStep(c: Bytes, o: nat, depth: nat, f: Strtod)
    requires NulTerminated(c) && o < |c|
    ensures ParseElements(c, o, depth, f) == AfterElement(c, ParseElement(c, o, depth, f), depth, f)
  {
    hide ParseElement, SkipSpace, NulTerminated;
  }

  lemma {:induction false} ElementsExactly(c: Bytes, o: nat, depth: nat, f: Strtod, es: seq<Json>, k: nat)
    requires NulTerminated(c) && o < |c| && depth <= NESTING_LIMIT && es != []
    ensures ParseElements(c, o, depth, f) == Parsed(es, k) ==>
            0 < k <= |c| && c[k-1] == 93 && ElementsAt(c, o, k - 1, es, f) && depth + DeepestElement(es) <= NESTING_LIMIT
    ensures 0 < k <= |c| && c[k-1] == 93 && ElementsAt(c, o, k - 1, es, f) ==>
            ParseElements(c, o, depth, f) == Within(depth + DeepestElement(es), es, k)
    decreases |c| - o, 3
  {
    hide NulTerminated, ParseElements, ParseElement, SpacedAt, ElementsAt, DeepestElement, Nesting;
    ElementsStep(c, o, depth, f);
    DeepestSplit(es);
    var e := ParseElement(c, o, depth, f);
    if ParseElements(c, o, depth, f) == Parsed(es, k) {
      var b := e.next;
      ElementExactly(c, o, depth, f, e.value, b);
      if c[b] == 44 {
        assert es[0] == e.value && es[1..] == ParseElements(c, b + 1, depth, f).value;
        SomeElements(c, b + 1, depth, f);
        ElementsExactly(c, b + 1, depth, f, es[1..], k);
        ElementsJoin(c, o, b, k - 1, es, f);
      } else {
        OneElementAt(c, o, k - 1, es, f);
      }
    }
    if 0 < k <= |c| && c[k-1] == 93 && ElementsAt(c, o, k - 1, es, f) {
      var r := ElementsPart(c, o, k - 1, es, f);
      ElementExactly(c, o, depth, f, es[0], r);
      if |es| > 1 {
        InFront(c, r);
        ElementsExactly(c, r + 1, depth, f, es[1..], k);
        assert es == [es[0]] + es[1..];
      } else {
        assert es == [es[0]];
      }
    }
  }

  lemma DeepestSplit(es: seq<Json>)
    requires es != []
    ensures DeepestElement(es) == Larger(Nesting(es[0]), if |es| == 1 then 0 else DeepestElement(es[1..]))
  {
    hide Nesting;
    assert |es| == 1 ==> es[1..] == [];
  }

  lemma OneElementAt(c: Bytes, o: nat, k: nat, es: seq<Json>, f: Strtod)
    requires |es| == 1
    ensures ElementsAt(c, o, k, es, f) <==> SpacedAt(c, o, k, es[0], f)
  {
    hide SpacedAt;
  }

  lemma ElementsJoin(c: Bytes, o: nat, r: nat, k: nat, es: seq<Json>, f: Strtod)
    requires |es| > 1 && r < |c| && SpacedAt(c, o, r, es[0], f) && c[r] == 44 && ElementsAt(c, r + 1, k, es[1..], f)
    ensures ElementsAt(c, o, k, es, f)
  {
    hide SpacedAt;
  }

  /** Where the first element ends. */
  lemma ElementsPart(c: Bytes, o: nat, k: nat, es: seq<Json>, f: Strtod) returns (r: nat)
    requires es != [] && ElementsAt(c, o, k, es, f)
    ensures o <= r && SpacedAt(c, o, r, es[0], f)
    ensures if |es| == 1 then r == k else r < |c| && c[r] == 44 && ElementsAt(c, r + 1, k, es[1..], f)
  {
    hide SpacedAt;
    if |es| == 1 {
      r := k;
    } else {
      r :| r < |c| && SpacedAt(c, o, r, es[0], f) && c[r] == 44 && ElementsAt(c, r + 1, k, es[1..], f);
    }
    SpacedForward(c, o, r, es[0], f);
  }

  lemma SpacedForward(c: Bytes, o: nat, k: nat, j: Json, f: Strtod)
    requires SpacedAt(c, o, k, j, f)
    ensures o < k <= |c|
  {
    hide ValueAt;
    var p: nat, q: nat :| Space(c, o, p) && ValueAt(c, p, q, j, f) && Space(c, q, k);
    FirstByte(c, p, q, j, f);
  }

  /** An element is read with the white space around it, up to the next other byte. */
  lemma {:induction false} ElementExactly(c: Bytes, o: nat, depth: nat, f: Strtod, j: Json, b: nat)
    requires NulTerminated(c) && o < |c| && depth <= NESTING_LIMIT && b < |c| && c[b] > 32
    ensures ParseElement(c, o, depth, f) == Parsed(j, b) ==> SpacedAt(c, o, b, j, f) && depth + Nesting(j) <= NESTING_LIMIT
    ensures SpacedAt(c, o, b, j, f) ==> ParseElement(c, o, depth, f) == Within(depth + Nesting(j), j, b)
    decreases |c| - o, 2
  {
    hide NulTerminated, ParseValue, SkipSpace, SkipRun, ValueAt, Space, Nesting;
    Skipped(c, o);
    var p := SkipSpace(c, o);
    if ParseElement(c, o, depth, f) == Parsed(j, b) {
      var q := ParseValue(c, p, depth, f).next;
      ValueExactly(c, p, depth, f, j, q);
      Skipped(c, q);
    }
    if SpacedAt(c, o, b, j, f) {
      var p': nat, q: nat :| Space(c, o, p') && ValueAt(c, p', q, j, f) && Space(c, q, b);
      FirstByte(c, p', q, j, f);
      Landing(c, o, p');
      ValueExactly(c, p, depth, f, j, q);
      Landing(c, q, b);
    }
  }

  // Objects

  /** What stands between the braces of an object. */
  ghost predicate Braced(c: Bytes, o: nat, k: nat, ms: Members, f: Strtod) {
    o + 2 <= k <= |c| && c[k-1] == 125 && if ms == [] then Space(c, o + 1, k - 1) else MembersAt(c, o + 1, k - 1, ms, f)
  }

  lemma ObjectAt(c: Bytes, o: nat, k: nat, ms: Members, f: Strtod)
    ensures ValueAt(c, o, k, Object(ms), f) <==> o < |c| && c[o] == 123 && Braced(c, o, k, ms, f)
  {
    hide MembersAt, Space;
  }

  lemma {:induction false} ObjectExactly(c: Bytes, o: nat, depth: nat, f: Strtod, ms: Members, k: nat)
    requires NulTerminated(c) && o < |c| && c[o] == 123 && depth <= NESTING_LIMIT
    ensures ParseObject(c, o, depth, f) == Parsed(Object(ms), k) ==>
            Braced(c, o, k, ms, f) && depth + Nesting(Object(ms)) <= NESTING_LIMIT
    ensures Braced(c, o, k, ms, f) ==> ParseObject(c, o, depth, f) == Within(depth + Nesting(Object(ms)), Object(ms), k)
    decreases |c| - o, 0
  {
    hide NulTerminated, SkipSpace, SkipRun, ParseMembers, MembersAt, DeepestMember, Space;
    InFront(c, o);
    Skipped(c, o + 1);
    var p := SkipSpace(c, o + 1);
    if ms == [] {
      EmptyBrackets(c, o, k, 125);
      NoneDeep();
      if c[p] != 125 && depth < NESTING_LIMIT {
        SomeMembers(c, p, depth + 1, f);
      }
    } else if depth < NESTING_LIMIT {
      MembersFrom(c, o + 1, depth + 1, f);
      MembersExactly(c, o + 1, depth + 1, f, ms, k);
      if Braced(c, o, k, ms, f) {
        MembersStart(c, o + 1, k - 1, ms, f);
      }
      if ParseMembers(c, o + 1, depth + 1, f) == Parsed(ms, k) {
        NameFirst(c, o + 1, depth + 1, f);
      }
    }
  }

  lemma SomeMembers(c: Bytes, o: nat, depth: nat, f: Strtod)
    requires NulTerminated(c) && o < |c|
    ensures var r := ParseMembers(c, o, depth, f); r.Parsed? ==> r.value != []
  {
    hide ParseMember;
  }

  lemma MembersFrom(c: Bytes, o: nat, depth: nat, f: Strtod)
    requires NulTerminated(c) && o < |c|
    ensures ParseMembers(c, SkipSpace(c, o), depth, f) == ParseMembers(c, o, depth, f)
  {
    hide ParseValue, ParseString, SkipSpace, ParseMembers;
    Skipped(c, o);
    MembersStep(c, o, depth, f);
    MembersStep(c, SkipSpace(c, o), depth, f);
  }

  /** The members start with the quote of a name. */
  lemma MembersStart(c: Bytes, o: nat, k: nat, ms: Members, f: Strtod)
    requires NulTerminated(c) && ms != [] && MembersAt(c, o, k, ms, f)
    ensures o < |c| && c[SkipSpace(c, o)] == 34
  {
    hide NulTerminated, SkipSpace, SkipRun, SpacedAt, Space, NameAt;
    var r := MembersPart(c, o, k, ms, f);
    var q: nat :| q < |c| && NameAt(c, o, q, ms[0].key) && c[q] == 58 && SpacedAt(c, q + 1, r, ms[0].item, f);
    NameStart(c, o, q, ms[0].key);
  }

  lemma NameStart(c: Bytes, o: nat, r: nat, key: CStr)
    requires NulTerminated(c) && NameAt(c, o, r, key)
    ensures o < r <= |c| && c[SkipSpace(c, o)] == 34
  {
    hide SkipSpace, SkipRun, StringAt;
    var p: nat, q: nat :| Space(c, o, p) && StringAt(c, p, q, key) && Space(c, q, r);
    FirstOfString(c, p, q, key);
    Landing(c, o, p);
  }

  lemma NameFirst(c: Bytes, o: nat, depth: nat, f: Strtod)
    requires NulTerminated(c) && o < |c| && ParseMembers(c, o, depth, f).Parsed?
    ensures c[SkipSpace(c, o)] == 34
  {
    hide ParseValue, SkipSpace, ParseMembers;
    MembersStep(c, o, depth, f);
  }

  /** What is read behind a member. */
  ghost function AfterMember(c: Bytes, first: Parsed<Keyed<Json>>, depth: nat, f: Strtod): Parsed<seq<Keyed<Json>>>
    requires NulTerminated(c) && (first.Parsed? ==> first.next < |c|)
  {
    match first
    case Failed => Failed
    case Parsed(x, b) =>
      if c[b] == 44 then
        var rest := ParseMembers(c, b + 1, depth, f);
        if rest.Failed? then Failed else Parsed([x] + rest.value, rest.next)
      else if c[b] == 125 then Parsed([x], b + 1)
      else Failed
  }

  lemma MembersStep(c: Bytes, o: nat, depth: nat, f: Strtod)
    requires NulTerminated(c) && o < |c|
    ensures ParseMembers(c, o, depth, f) == AfterMember(c, ParseMember(c, o, depth, f), depth, f)
  {
    hide ParseMember, SkipSpace, NulTerminated;
  }

  lemma {:induction false} MembersExactly(c: Bytes, o: nat, depth: nat, f: Strtod, ms: Members, k: nat)
    requires NulTerminated(c) && o < |c| && depth <= NESTING_LIMIT && ms != []
    ensures ParseMembers(c, o, depth, f) == Parsed(ms, k) ==>
            0 < k <= |c| && c[k-1] == 125 && MembersAt(c, o, k - 1, ms, f) && depth + DeepestMember(ms) <= NESTING_LIMIT
    ensures 0 < k <= |c| && c[k-1] == 125 && MembersAt(c, o, k - 1, ms, f) ==>
            ParseMembers(c, o, depth, f) == Within(depth + DeepestMember(ms), ms, k)
    decreases |c| - o, 3
  {
    hide NulTerminated, ParseMembers, ParseMember, MemberAt, MembersAt, DeepestMember, Nesting;
    MembersStep(c, o, depth, f);
    DeepestMemberSplit(ms);
    var m := ParseMember(c, o, depth, f);
    if ParseMembers(c, o, depth, f) == Parsed(ms, k) {
      var b := m.next;
      MemberExactly(c, o, depth, f, m.value, b);
      if c[b] == 44 {
        assert ms[0] == m.value && ms[1..] == ParseMembers(c, b + 1, depth, f).value;
        SomeMembers(c, b + 1, depth, f);
        MembersExactly(c, b + 1, depth, f, ms[1..], k);
        MembersJoin(c, o, b, k - 1, ms, f);
      } else {
        OneMemberAt(c, o, k - 1, ms, f);
      }
    }
    if 0 < k <= |c| && c[k-1] == 125 && MembersAt(c, o, k - 1, ms, f) {
      var r := MembersPart(c, o, k - 1, ms, f);
      MemberExactly(c, o, depth, f, ms[0], r);
      if |ms| > 1 {
        InFront(c, r);
        MembersExactly(c, r + 1, depth, f, ms[1..], k);
        assert ms == [ms[0]] + ms[1..];
      } else {
        assert ms == [ms[0]];
      }
    }
  }

  lemma DeepestMemberSplit(ms: Members)
    requires ms != []
    ensures DeepestMember(ms) == Larger(Nesting(ms[0].item), if |ms| == 1 then 0 else DeepestMember(ms[1..]))
  {
    hide Nesting;
    assert |ms| == 1 ==> ms[1..] == [];
  }

  lemma OneMemberAt(c: Bytes, o: nat, k: nat, ms: Members, f: Strtod)
    requires |ms| == 1
    ensures MembersAt(c, o, k, ms, f) <==> MemberAt(c, o, k, ms[0], f)
  {
    hide MemberAt;
  }

  lemma MembersJoin(c: Bytes, o: nat, r: nat, k: nat, ms: Members, f: Strtod)
    requires |ms| > 1 && r < |c| && MemberAt(c, o, r, ms[0], f) && c[r] == 44 && MembersAt(c, r + 1, k, ms[1..], f)
    ensures MembersAt(c, o, k, ms, f)
  {
    hide MemberAt;
  }

  /** Where the first member ends. */
  lemma MembersPart(c: Bytes, o: nat, k: nat, ms: Members, f: Strtod) returns (r: nat)
    requires ms != [] && MembersAt(c, o, k, ms, f)
    ensures o <= r && MemberAt(c, o, r, ms[0], f)
    ensures if |ms| == 1 then r == k else r < |c| && c[r] == 44 && MembersAt(c, r + 1, k, ms[1..], f)
  {
    hide MemberAt;
    if |ms| == 1 {
      r := k;
    } else {
      r :| r < |c| && MemberAt(c, o, r, ms[0], f) && c[r] == 44 && MembersAt(c, r + 1, k, ms[1..], f);
    }
    MemberForward(c, o, r, ms[0], f);
  }

  lemma MemberForward(c: Bytes, o: nat, k: nat, m: Keyed<Json>, f: Strtod)
    requires MemberAt(c, o, k, m, f)
    ensures o <= k
  {
    hide SpacedAt, NameAt;
    var r: nat :| r < |c| && NameAt(c, o, r, m.key) && c[r] == 58 && SpacedAt(c, r + 1, k, m.item, f);
    NameForward(c, o, r, m.key);
    SpacedForward(c, r + 1, k, m.item, f);
  }

  /** A name is read with the white space around it, up to the next other byte. */
  lemma NameExactly(c: Bytes, o: nat, r: nat, key: CStr)
    requires NulTerminated(c) && o < |c| && r < |c| && c[r] > 32
    ensures var name := ParseString(c, SkipSpace(c, o));
            name.Parsed? && name.value == key && name.next < |c| && SkipSpace(c, name.next) == r <==> NameAt(c, o, r, key)
  {
    hide NulTerminated, ParseString, SkipSpace, SkipRun, StringAt, Space;
    Skipped(c, o);
    var p := SkipSpace(c, o);
    var name := ParseString(c, p);
    if name.Parsed? && name.value == key && name.next < |c| && SkipSpace(c, name.next) == r {
      StringExactly(c, p, name.next, key);
      Skipped(c, name.next);
    }
    if NameAt(c, o, r, key) {
      var p': nat, q: nat :| Space(c, o, p') && StringAt(c, p', q, key) && Space(c, q, r);
      FirstOfString(c, p', q, key);
      Landing(c, o, p');
      StringExactly(c, p, q, key);
      SpaceOrder(c, q, r);
      Landing(c, q, r);
    }
  }

  lemma SpaceOrder(c: Bytes, o: nat, k: nat)
    requires Space(c, o, k)
    ensures o <= k <= |c|
  {
  }

  /** A name, a colon, and an element behind it. */
  lemma MemberStep(c: Bytes, o: nat, depth: nat, f: Strtod)
    requires NulTerminated(c) && o < |c|
    ensures var name := ParseString(c, SkipSpace(c, o));
            name.Parsed? ==> name.next < |c|
    ensures ParseMember(c, o, depth, f) ==
            var name := ParseString(c, SkipSpace(c, o));
            if name.Failed? || c[SkipSpace(c, name.next)] != 58 then Failed
            else
              var q := SkipSpace(c, name.next);
              var v := ParseValue(c, SkipSpace(c, q + 1), depth, f);
              if v.Failed? then Failed else Parsed(Keyed(name.value, v.value), SkipSpace(c, v.next))
  {
    hide ParseString, ParseValue, SkipSpace;
  }

  lemma {:induction false} MemberExactly(c: Bytes, o: nat, depth: nat, f: Strtod, m: Keyed<Json>, b: nat)
    requires NulTerminated(c) && o < |c| && depth <= NESTING_LIMIT && b < |c| && c[b] > 32
    ensures ParseMember(c, o, depth, f) == Parsed(m, b) ==> MemberAt(c, o, b, m, f) && depth + Nesting(m.item) <= NESTING_LIMIT
    ensures MemberAt(c, o, b, m, f) ==> ParseMember(c, o, depth, f) == Within(depth + Nesting(m.item), m, b)
    decreases |c| - o, 2
  {
    hide NulTerminated, ParseMember, ParseValue, ParseString, SkipSpace, SkipRun, SpacedAt, NameAt, Nesting;
    MemberStep(c, o, depth, f);
    var name := ParseString(c, SkipSpace(c, o));
    if ParseMember(c, o, depth, f) == Parsed(m, b) {
      var r := SkipSpace(c, name.next);
      NameExactly(c, o, r, m.key);
      NameForward(c, o, r, m.key);
      InFront(c, r);
      ElementExactly(c, r + 1, depth, f, m.item, b);
    }
    if MemberAt(c, o, b, m, f) {
      var r: nat :| r < |c| && NameAt(c, o, r, m.key) && c[r] == 58 && SpacedAt(c, r + 1, b, m.item, f);
      NameExactly(c, o, r, m.key);
      NameForward(c, o, r, m.key);
      InFront(c, r);
      ElementExactly(c, r + 1, depth, f, m.item, b);
    }
  }

  lemma NameForward(c: Bytes, o: nat, r: nat, key: CStr)
    requires NameAt(c, o, r, key)
    ensures o < r <= |c|
  {
    hide StringAt;
    var p: nat, q: nat :| Space(c, o, p) && StringAt(c, p, q, key) && Space(c, q, r);
    FirstOfString(c, p, q, key);
  }

  // Whole texts

  lemma MarkSkipped(text: CStr)
    ensures SkipMark(Buffer(text)) == Start(text)
  {
    var c := Buffer(text);
    assert forall i :: 0 <= i < |text| ==> c[i] == c[..|text|][i];
    if |text| >= 4 {
      assert c[..3] == [c[0], c[1], c[2]];
    }
  }

  /** Up to some place a text is read exactly when it denotes the document up to there. */
  lemma ParsesPrefix(text: CStr, j: Json, k: nat, f: Strtod)
    ensures ParseWithOpts(text, false, f) == Parsed(j, k) <==> BeginsWith(text, k, j, f) && Nesting(j) <= 1000
    ensures BeginsWith(text, k, j, f) && Nesting(j) > 1000 ==> ParseWithOpts(text, false, f).Failed?
  {
    hide ParseValue, SkipSpace, SkipRun, ValueAt, Space, Nesting, Start, SkipMark;
    var c := Buffer(text);
    MarkSkipped(text);
    Skipped(c, Start(text));
    var p := SkipSpace(c, Start(text));
    ValueExactly(c, p, 0, f, j, k);
    if BeginsWith(text, k, j, f) {
      var p': nat :| Space(c, Start(text), p') && ValueAt(c, p', k, j, f);
      FirstByte(c, p', k, j, f);
      Landing(c, Start(text), p');
    }
  }

  /** With the end required, a text is read exactly when all of it denotes the document. */
  lemma ParsesExactly(text: CStr, j: Json, k: nat, f: Strtod)
    ensures ParseWithOpts(text, true, f) == Parsed(j, k) <==> k == |text| && Denotes(text, j, f) && Nesting(j) <= 1000
    ensures Denotes(text, j, f) && Nesting(j) > 1000 ==> ParseWithOpts(text, true, f).Failed?
  {
    hide ParseValue, SkipSpace, SkipRun, ValueAt, Space, Nesting, Start, SkipMark;
    var c := Buffer(text);
    MarkSkipped(text);
    Skipped(c, Start(text));
    var p := SkipSpace(c, Start(text));
    var v := ParseValue(c, p, 0, f);
    if ParseWithOpts(text, true, f) == Parsed(j, k) {
      ValueExactly(c, p, 0, f, j, v.next);
      Skipped(c, v.next);
      OnlyAtTheEnd(text, k);
    }
    if Denotes(text, j, f) {
      var p': nat, q: nat :| Space(c, Start(text), p') && ValueAt(c, p', q, j, f) && Space(c, q, |text|);
      FirstByte(c, p', q, j, f);
      Landing(c, Start(text), p');
      ValueExactly(c, p, 0, f, j, q);
      LandingAtTheEnd(text, q);
    }
  }

  lemma OnlyAtTheEnd(text: CStr, k: nat)
    requires k < |Buffer(text)| && Buffer(text)[k] == 0
    ensures k == |text|
  {
    var c := Buffer(text);
    forall i | 0 <= i < |text| ensures c[i] == text[i] {
      assert c[i] == c[..|text|][i];
    }
  }

  lemma LandingAtTheEnd(text: CStr, q: nat)
    requires Space(Buffer(text), q, |text|)
    ensures SkipSpace(Buffer(text), q) == |text| && Buffer(text)[|text|] == 0
  {
    var c := Buffer(text);
    var p := SkipRun(c, q);
    OnlyAtTheEnd(text, |text|);
  }

  /** Every other text is refused. */
  lemma RefusesExactly(text: CStr, f: Strtod)
    ensures ParseWithOpts(text, true, f).Failed? <==> forall j :: Nesting(j) <= 1000 ==> !Denotes(text, j, f)
    ensures ParseWithOpts(text, false, f).Failed? <==> forall j, k :: Nesting(j) <= 1000 ==> !BeginsWith(text, k, j, f)
  {
    hide ParseWithOpts, Denotes, BeginsWith, Nesting;
    var r, s := ParseWithOpts(text, true, f), ParseWithOpts(text, false, f);
    forall j ensures r == Parsed(j, |text|) <==> Denotes(text, j, f) && Nesting(j) <= 1000 {
      ParsesExactly(text, j, |text|, f);
    }
    forall j, k: nat ensures s == Parsed(j, k) <==> BeginsWith(text, k, j, f) && Nesting(j) <= 1000 {
      ParsesPrefix(text, j, k, f);
    }
    if r.Parsed? {
      ParsesExactly(text, r.value, r.next, f);
    }
  }
}
