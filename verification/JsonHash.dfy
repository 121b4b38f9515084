/** What json_hash depends on: the words it mixes in, one after the other. */
module JsonHash {
  import opened Bytes
  import opened JsonValue
  import opened JsonPrinter
  import opened JsonCanonical

  datatype Word = StringWord(s: Bytes) | IntWord(n: int) | DoubleWord(d: Double)

  /** The strings, integers and doubles of a tree in the order in which they are hashed.  The three
      literals are their types, shifted; an array starts with its length, an object with nothing. */
  function Words(j: Json): seq<Word>
    decreases j, 1
  {
    match j
    case JNull => [IntWord(0)]
    case JFalse => [IntWord(256)]
    case JTrue => [IntWord(512)]
    case JInteger(n) => [IntWord(n)]
    case JReal(d) => [DoubleWord(d)]
    case JString(s) => [StringWord(s)]
    case JArray(es) => [IntWord(|es|)] + WordsOfElems(j, |es|)
    case JObject(ms) => WordsOfMembers(j, Sort(ms), |Sort(ms)|)
  }

  function WordsOfElems(j: Json, i: nat): seq<Word>
    requires j.JArray? && i <= |j.elems|
    decreases j, 0, i
  {
    if i == 0 then [] else WordsOfElems(j, i - 1) + Words(j.elems[i - 1])
  }

  function WordsOfMembers(j: Json, order: seq<Member>, i: nat): seq<Word>
    requires j.JObject? && i <= |order| && forall m :: m in order ==> m in j.members
    decreases j, 0, i
  {
    if i == 0 then []
    else
      assert order[i - 1] in order;
      WordsOfMembers(j, order, i - 1) + ([StringWord(order[i - 1].name)] + Words(order[i - 1].value))
  }

  function Mix(w: Word, basis: nat, h: Hashes): nat {
    match w
    case StringWord(s) => h.ofString(s, basis)
    case IntWord(n) => h.ofInt(n, basis)
    case DoubleWord(d) => h.ofDouble(d, basis)
  }

  function MixAll(ws: seq<Word>, basis: nat, h: Hashes): nat {
    if ws == [] then basis else Mix(ws[|ws| - 1], MixAll(ws[..|ws| - 1], basis, h), h)
  }

  lemma {:induction false} MixConcat(a: seq<Word>, b: seq<Word>, basis: nat, h: Hashes)
    ensures MixAll(a + b, basis, h) == MixAll(b, MixAll(a, basis, h), h)
    decreases |b|
  {
    if b == [] {
      assert a + b == a;
    } else {
      var c := b[..|b| - 1];
      assert (a + b)[..|a + b| - 1] == a + c;
      MixConcat(a, c, basis, h);
    }
  }

  lemma MixOne(w: Word, basis: nat, h: Hashes)
    ensures MixAll([w], basis, h) == Mix(w, basis, h)
  {
    assert [w][..0] == [];
  }

  /** json_hash mixes the words of the tree into the basis. */
  lemma {:induction false} HashIsMix(j: Json, basis: nat, h: Hashes)
    ensures Hash(j, basis, h) == MixAll(Words(j), basis, h)
    decreases j, 1, 0
  {
    match j {
      case JArray(es) =>
        MixConcat([IntWord(|es|)], WordsOfElems(j, |es|), basis, h);
        MixOne(IntWord(|es|), basis, h);
        ElemsAreMixed(j, |es|, h.ofInt(|es|, basis), h);
      case JObject(ms) => MembersAreMixed(j, Sort(ms), |Sort(ms)|, basis, h);
      case _ => MixOne(Words(j)[0], basis, h);
    }
  }

  lemma {:induction false} ElemsAreMixed(j: Json, i: nat, basis: nat, h: Hashes)
    requires j.JArray? && i <= |j.elems|
    ensures HashElems(j, i, basis, h) == MixAll(WordsOfElems(j, i), basis, h)
    decreases j, 0, i
  {
    hide Hash;
    hide Words;
    if i > 0 {
      ElemsAreMixed(j, i - 1, basis, h);
      HashIsMix(j.elems[i - 1], HashElems(j, i - 1, basis, h), h);
      MixConcat(WordsOfElems(j, i - 1), Words(j.elems[i - 1]), basis, h);
    }
  }

  lemma {:induction false} MembersAreMixed(j: Json, order: seq<Member>, i: nat, basis: nat, h: Hashes)
    requires j.JObject? && i <= |order| && forall m :: m in order ==> m in j.members
    ensures HashMembers(j, order, i, basis, h) == MixAll(WordsOfMembers(j, order, i), basis, h)
    decreases j, 0, i
  {
    hide Hash;
    hide Words;
    if i > 0 {
      var m := order[i - 1];
      assert m in order && m in j.members;
      MembersAreMixed(j, order, i - 1, basis, h);
      var before := HashMembers(j, order, i - 1, basis, h);
      HashIsMix(m.value, h.ofString(m.name, before), h);
      MixOne(StringWord(m.name), before, h);
      MixConcat([StringWord(m.name)], Words(m.value), before, h);
      MixConcat(WordsOfMembers(j, order, i - 1), [StringWord(m.name)] + Words(m.value), basis, h);
    }
  }

  /** Hash functions without collisions, which never give back the basis. */
  ghost predicate Perfect(h: Hashes, basis: nat) {
    && (forall v, b, w, c :: Mix(v, b, h) == Mix(w, c, h) ==> v == w && b == c)
    && (forall w, b :: Mix(w, b, h) != basis)
  }

  lemma {:induction false} MixInjective(a: seq<Word>, b: seq<Word>, basis: nat, h: Hashes)
    requires Perfect(h, basis) && MixAll(a, basis, h) == MixAll(b, basis, h)
    ensures a == b
    decreases |a|
  {
    if a != [] && b != [] {
      var c, d := a[..|a| - 1], b[..|b| - 1];
      MixInjective(c, d, basis, h);
      assert a == c + [a[|a| - 1]] && b == d + [b[|b| - 1]];
    }
  }

  /** With hash functions that have no collisions two trees have the same hash if and only if their
      words are the same. */
  lemma SameHashIff(a: Json, b: Json, basis: nat, h: Hashes)
    requires Perfect(h, basis)
    ensures Hash(a, basis, h) == Hash(b, basis, h) <==> Words(a) == Words(b)
  {
    HashIsMix(a, basis, h);
    HashIsMix(b, basis, h);
    if Hash(a, basis, h) == Hash(b, basis, h) { MixInjective(Words(a), Words(b), basis, h); }
  }

  /** That does not make them equal: null, 0 and the empty array have the same hash with any hash
      functions. */
  lemma HashTellsLittle(basis: nat, h: Hashes, same: SameDouble)
    ensures Hash(JNull, basis, h) == Hash(JInteger(0), basis, h) == Hash(JArray([]), basis, h)
    ensures !Equal(JNull, JInteger(0), same) && !Equal(JInteger(0), JArray([]), same) && !Equal(JNull, JArray([]), same)
  {
    HashIsMix(JNull, basis, h);
    HashIsMix(JInteger(0), basis, h);
    HashIsMix(JArray([]), basis, h);
    assert [IntWord(0)] + [] == [IntWord(0)];
  }
}
