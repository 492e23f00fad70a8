/** What the character classes, splitters and searches of Strings accept, written without them. */
module TextForms {
  import opened NumberTheory
  import opened Strings

  // --- Characters and names ---------------------------------------------------------------

  /** The ASCII code points of the classes. */
  lemma CharacterClasses(c: char)
    ensures IsDigit(c) <==> 48 <= c as int <= 57
    ensures IsLetter(c) <==> 65 <= c as int <= 90 || 97 <= c as int <= 122
    ensures IsSpace(c) <==> c as int in SPACES
  {}

  /** The code points with the Unicode property White_Space. */
  const SPACES := {
    9, 10, 11, 12, 13, 32, 133, 160, 5760, 8192, 8193, 8194, 8195, 8196, 8197, 8198, 8199, 8200, 8201, 8202,
    8232, 8233, 8239, 8287, 12288}

  predicate IsWordCharacter(c: char) { IsLetter(c) || IsDigit(c) || c == '_' }

  /** Identifiers are the non-empty texts of word characters that do not begin with a digit; contract
      names may have hyphens too, and begin with a letter. */
  lemma NamesIff(s: string)
    ensures IsIdentifier(s) <==> s != "" && !IsDigit(s[0]) && forall c <- s :: IsWordCharacter(c)
    ensures IsContractName(s) <==> s != "" && IsLetter(s[0]) && forall c <- s :: IsWordCharacter(c) || c == '-'
  {
    if s != "" { assert IsLetter(s[0]) ==> !IsDigit(s[0]); }
    hide IsLetter, IsDigit;
    assert s != "" ==> s[0] in s;
    assert forall i :: 0 <= i < |s| ==> s[i] in s;
    assert '-' != '_';
  }

  // --- Versions ------------------------------------------------------------------------------

  lemma {:induction false} SplitPlain(s: string, at: char)
    requires at !in s
    ensures Split(s, at) == [s]
  {
    if s != "" {
      SplitPlain(s[1..], at);
      assert s == [s[0]] + s[1..];
    }
  }

  /** A part without the separator, then the separator, then the rest. */
  lemma {:induction false} SplitFirst(part: string, rest: string, at: char)
    requires at !in part
    ensures Split(part + [at] + rest, at) == [part] + Split(rest, at)
  {
    var s := part + [at] + rest;
    if part == "" {
      assert s[0] == at && s[1..] == rest;
    } else {
      assert s[1..] == part[1..] + [at] + rest && s[0] == part[0];
      SplitFirst(part[1..], rest, at);
      assert part == [part[0]] + part[1..];
    }
  }

  ghost predicate Parts(s: string, at: char, part: string, rest: string) {
    s == part + [at] + rest && at !in part
  }

  lemma {:induction false} SplitBack(s: string, at: char)
    ensures var parts := Split(s, at);
      if |parts| == 1 then s == parts[0] && at !in s
      else exists rest: string :: Parts(s, at, parts[0], rest) && Split(rest, at) == parts[1..]
  {
    if s != "" {
      SplitBack(s[1..], at);
      var parts, more := Split(s, at), Split(s[1..], at);
      if s[0] == at {
        assert parts[1..] == more;
        assert Parts(s, at, "", s[1..]);
      } else if |more| > 1 {
        var rest: string :| Parts(s[1..], at, more[0], rest) && Split(rest, at) == more[1..];
        assert Parts(s, at, parts[0], rest);
      }
    }
  }

  ghost predicate Dotted(s: string, a: string, b: string, c: string) { s == a + "." + b + "." + c }

  predicate IsVersionPart(s: string) { ParseUnsigned(s, 0x1_0000_0000).Some? }

  lemma NoDot(s: string)
    requires IsVersionPart(s)
    ensures '.' !in s
  {
    var digits := if s != "" && s[0] == '+' then s[1..] else s;
    forall i | 0 <= i < |s| ensures s[i] != '.' {
      if s[0] == '+' && i > 0 { assert digits[i - 1] == s[i]; }
    }
  }

  /** A version is three texts of 32-bit numbers with dots in between. */
  lemma VersionIff(s: string)
    ensures IsVersion(s) <==>
      exists a, b, c :: Dotted(s, a, b, c) && IsVersionPart(a) && IsVersionPart(b) && IsVersionPart(c)
  {
    if a, b, c :| Dotted(s, a, b, c) && IsVersionPart(a) && IsVersionPart(b) && IsVersionPart(c) {
      DottedIsVersion(s, a, b, c);
    }
    if IsVersion(s) { VersionIsDotted(s); }
    hide IsVersion, Dotted, IsVersionPart;
  }

  lemma DottedIsVersion(s: string, a: string, b: string, c: string)
    requires Dotted(s, a, b, c) && IsVersionPart(a) && IsVersionPart(b) && IsVersionPart(c)
    ensures IsVersion(s)
  {
    NoDot(a);
    NoDot(b);
    NoDot(c);
    hide ParseUnsigned, Split;
    assert s == a + ['.'] + (b + ['.'] + c);
    SplitFirst(a, b + ['.'] + c, '.');
    SplitFirst(b, c, '.');
    SplitPlain(c, '.');
    assert Split(s, '.') == [a, b, c];
  }

  lemma VersionIsDotted(s: string)
    requires IsVersion(s)
    ensures exists a, b, c :: Dotted(s, a, b, c) && IsVersionPart(a) && IsVersionPart(b) && IsVersionPart(c)
  {
    hide ParseUnsigned, Split;
    var parts := Split(s, '.');
    SplitBack(s, '.');
    var rest: string :| Parts(s, '.', parts[0], rest) && Split(rest, '.') == parts[1..];
    SplitBack(rest, '.');
    var last: string :| Parts(rest, '.', parts[1..][0], last) && Split(last, '.') == parts[1..][1..];
    SplitBack(last, '.');
    assert parts[1..][0] == parts[1] && parts[1..][1..] == [parts[2]];
    assert IsVersionPart(parts[0]) && IsVersionPart(parts[1]) && IsVersionPart(parts[2]);
    assert Dotted(s, parts[0], parts[1], parts[2]);
  }

  // --- Words ------------------------------------------------------------------------------------

  predicate Blank(s: string) { forall c <- s :: IsSpace(c) }

  predicate IsWord(s: string) { s != "" && forall c <- s :: !IsSpace(c) }

  lemma {:induction false} WordsOfBlank(gap: string, s: string)
    requires Blank(gap)
    ensures Words(gap + s) == Words(s)
  {
    if gap == "" {
      assert gap + s == s;
    } else {
      assert gap[0] in gap && forall c <- gap[1..] :: c in gap;
      assert (gap + s)[1..] == gap[1..] + s;
      WordsOfBlank(gap[1..], s);
    }
    hide IsSpace;
  }

  lemma {:induction false} WordsOfWord(word: string, s: string)
    requires IsWord(word) && (s == "" || IsSpace(s[0]))
    ensures Words(word + s) == [word] + Words(s)
  {
    hide IsSpace;
    var t := word + s;
    assert word[0] in word && forall c <- word[1..] :: c in word;
    assert t[1..] == word[1..] + s && word == [word[0]] + word[1..];
    if |word| > 1 {
      assert word[1] in word;
      WordsOfWord(word[1..], s);
      assert ([word[1..]] + Words(s))[1..] == Words(s);
    } else {
      assert t[1..] == s;
      assert s != "" ==> t[1] == s[0];
      assert word == [t[0]] && Words(t) == [[t[0]]] + Words(t[1..]);
    }
  }

  /** The text begins with a blank gap and this word, which ends there. */
  ghost predicate Begins(s: string, gap: string, word: string, rest: string) {
    s == gap + word + rest && Blank(gap) && IsWord(word) && (rest == "" || IsSpace(rest[0]))
  }

  lemma BeginsAfterSpace(s: string, gap: string, word: string, rest: string)
    requires s != "" && IsSpace(s[0]) && Begins(s[1..], gap, word, rest)
    ensures Begins(s, [s[0]] + gap, word, rest)
  {
    hide IsSpace;
    assert s == [s[0]] + gap + word + rest;
  }

  lemma BeginsLonger(s: string, gap: string, word: string, rest: string)
    requires |s| > 1 && !IsSpace(s[0]) && !IsSpace(s[1]) && Begins(s[1..], gap, word, rest)
    ensures Begins(s, "", [s[0]] + word, rest)
  {
    hide IsSpace;
    assert gap == "";
    assert s == "" + ([s[0]] + word) + rest;
  }

  lemma BeginsShort(s: string)
    requires s != "" && !IsSpace(s[0]) && (|s| == 1 || IsSpace(s[1]))
    ensures Begins(s, "", [s[0]], s[1..])
  {
    hide IsSpace;
    assert s == "" + [s[0]] + s[1..];
  }

  ghost predicate SplitsOff(s: string, words: seq<string>) {
    words != [] && exists gap, rest :: Begins(s, gap, words[0], rest) && Words(rest) == words[1..]
  }

  lemma {:induction false} WordsNone(s: string)
    ensures Words(s) == [] <==> Blank(s)
  {
    hide IsSpace;
    if s != "" {
      WordsNone(s[1..]);
      assert forall c <- s :: c == s[0] || c in s[1..];
      assert s[0] in s && forall c <- s[1..] :: c in s;
    }
  }

  lemma {:induction false} WordsBack(s: string)
    requires Words(s) != []
    ensures SplitsOff(s, Words(s))
  {
    var words, more := Words(s), Words(s[1..]);
    if IsSpace(s[0]) {
      WordsBack(s[1..]);
      var gap, rest :| Begins(s[1..], gap, more[0], rest) && Words(rest) == more[1..];
      BeginsAfterSpace(s, gap, more[0], rest);
    } else if |s| > 1 && !IsSpace(s[1]) {
      MoreWords(s[1..]);
      WordsBack(s[1..]);
      var gap, rest :| Begins(s[1..], gap, more[0], rest) && Words(rest) == more[1..];
      BeginsLonger(s, gap, more[0], rest);
      assert words[0] == [s[0]] + more[0] && words[1..] == more[1..];
    } else {
      BeginsShort(s);
      assert words[0] == [s[0]] && words[1..] == more;
    }
    hide IsSpace, Begins;
  }

  lemma MoreWords(s: string)
    requires s != "" && !IsSpace(s[0])
    ensures Words(s) != []
  {
    WordsNone(s);
    assert s[0] in s;
    hide IsSpace;
  }

  /** Three words between blanks. */
  ghost predicate ThreeWords(s: string, a: string, b: string, c: string) {
    exists r1, r2, r3, g1, g2, g3 :: Begins(s, g1, a, r1) && Begins(r1, g2, b, r2) && Begins(r2, g3, c, r3) && Blank(r3)
  }

  /** `split_whitespace` gives three words exactly when blanks separate just these three. */
  lemma WordsAreThreeIff(s: string, a: string, b: string, c: string)
    ensures Words(s) == [a, b, c] <==> ThreeWords(s, a, b, c)
  {
    hide Begins, Words, Blank;
    if ThreeWords(s, a, b, c) {
      var r1, r2, r3, g1, g2, g3 :|
        Begins(s, g1, a, r1) && Begins(r1, g2, b, r2) && Begins(r2, g3, c, r3) && Blank(r3);
      WordsBegin(s, g1, a, r1);
      WordsBegin(r1, g2, b, r2);
      WordsBegin(r2, g3, c, r3);
      WordsNone(r3);
    }
    if Words(s) == [a, b, c] {
      WordsBack(s);
      var g1, r1 :| Begins(s, g1, a, r1) && Words(r1) == [a, b, c][1..];
      WordsBack(r1);
      var g2, r2 :| Begins(r1, g2, b, r2) && Words(r2) == [b, c][1..];
      WordsBack(r2);
      var g3, r3 :| Begins(r2, g3, c, r3) && Words(r3) == [c][1..];
      WordsNone(r3);
    }
  }

  lemma WordsBegin(s: string, gap: string, word: string, rest: string)
    requires Begins(s, gap, word, rest)
    ensures Words(s) == [word] + Words(rest)
  {
    hide IsSpace, Words;
    assert s == gap + (word + rest);
    WordsOfBlank(gap, word + rest);
    WordsOfWord(word, rest);
  }

  // --- Searching ------------------------------------------------------------------------------

  predicate OccursAt(s: string, part: string, i: nat) { i + |part| <= |s| && s[i..i + |part|] == part }

  /** Some slice of the text is the part. */
  lemma {:induction false} ContainsIff(s: string, part: string)
    ensures Contains(s, part) <==> exists i: nat :: OccursAt(s, part, i)
  {
    if part <= s {
      assert OccursAt(s, part, 0);
    } else if s != "" {
      ContainsIff(s[1..], part);
      if i: nat :| OccursAt(s[1..], part, i) { assert OccursAt(s, part, i + 1); }
      if i: nat :| OccursAt(s, part, i) { assert i > 0 && OccursAt(s[1..], part, i - 1); }
    }
  }

  // --- Lengths ----------------------------------------------------------------------------------

  /** The code points of at most k bytes of UTF-8: 7, 11, 16 and 21 bits. */
  function Utf8Bound(k: nat): nat { if k == 1 then 0x80 else if k == 2 then 0x800 else if k == 3 then 0x10000 else 0x200000 }

  lemma ByteLengthOne(c: char, k: nat)
    requires 1 <= k <= 4
    ensures ByteLength([c]) <= k <==> (c as int) < Utf8Bound(k)
  {
    assert ByteLength([c][..0]) == 0;
  }

  lemma {:induction false} ByteLengthAdds(s: string, t: string)
    ensures ByteLength(s + t) == ByteLength(s) + ByteLength(t)
  {
    if t == "" {
      assert s + t == s;
    } else {
      assert (s + t)[..|s + t| - 1] == s + t[..|t| - 1];
      ByteLengthAdds(s, t[..|t| - 1]);
    }
  }
}
