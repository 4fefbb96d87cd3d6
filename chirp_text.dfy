/**
 * Chirp text processing: the profanity mask applied to every accepted chirp
 * body and the 140-byte length limit checked before it. Go's
 * `strings.Split(s, " ")` and `strings.Join(words, " ")` are `Split` and
 * `Join`; `strings.ToLower` is restricted to ASCII letters; `len` of a Go
 * string counts UTF-8 bytes, which `Utf8Len` computes from the characters.
 */
module ChirpText {

  // ---------------------------------------------------------------------------
  // Words
  // ---------------------------------------------------------------------------

  /** `strings.Split(s, " ")`: the pieces between single spaces, so repeated,
      leading and trailing spaces give empty words and "" gives [""]. */
  function Split(s: string): (words: seq<string>)
    ensures |words| >= 1
    ensures forall i :: 0 <= i < |words| ==> ' ' !in words[i]
  {
    if |s| == 0 then [""]
    else
      var rest := Split(s[1..]);
      if s[0] == ' ' then [""] + rest
      else [[s[0]] + rest[0]] + rest[1..]
  }

  /** `strings.Join(words, " ")`. */
  function Join(words: seq<string>): string {
    if |words| == 0 then ""
    else if |words| == 1 then words[0]
    else words[0] + " " + Join(words[1..])
  }

  predicate SpaceFree(words: seq<string>) {
    forall i :: 0 <= i < |words| ==> ' ' !in words[i]
  }

  /** Joining the pieces of a split gives the text back. */
  lemma {:induction false} JoinSplit(s: string)
    ensures Join(Split(s)) == s
  {
    if |s| > 0 {
      JoinSplit(s[1..]);
      var rest := Split(s[1..]);
      if s[0] == ' ' {
        assert ([""] + rest)[1..] == rest;
      } else if |rest| > 1 {
        var words := [[s[0]] + rest[0]] + rest[1..];
        assert words[1..] == rest[1..];
        assert Join(rest) == rest[0] + " " + Join(rest[1..]);
      }
    }
  }

  /** Splitting a text that starts with a space-free word `w`. */
  lemma {:induction false} SplitAfterWord(w: string, s: string)
    requires ' ' !in w
    ensures Split(w + s) == [w + Split(s)[0]] + Split(s)[1..]
  {
    if |w| > 0 {
      SplitAfterWord(w[1..], s);
      assert w[0] != ' ' && (w + s)[0] == w[0];
      assert (w + s)[1..] == w[1..] + s;
      var rest := Split(w[1..] + s);
      assert rest[1..] == Split(s)[1..];
      assert [w[0]] + (w[1..] + Split(s)[0]) == w + Split(s)[0];
    } else {
      assert w + s == s;
      assert w + Split(s)[0] == Split(s)[0];
      assert Split(s) == [Split(s)[0]] + Split(s)[1..];
    }
  }

  /** Splitting a join of space-free words gives the words back. */
  lemma {:induction false} SplitJoin(words: seq<string>)
    requires |words| >= 1 && SpaceFree(words)
    ensures Split(Join(words)) == words
  {
    if |words| == 1 {
      SplitAfterWord(words[0], "");
      assert words[0] + "" == words[0];
    } else {
      SplitJoin(words[1..]);
      var tail := " " + Join(words[1..]);
      SplitAfterWord(words[0], tail);
      assert tail[1..] == Join(words[1..]);
      assert Split(tail) == [""] + words[1..];
      assert words[0] + Join(words[1..]) == words[0] + Join(words[1..]);
      assert Join(words) == words[0] + tail;
      assert words[0] + "" == words[0];
      assert [words[0]] + words[1..] == words;
    }
  }

  // ---------------------------------------------------------------------------
  // The profanity mask
  // ---------------------------------------------------------------------------

  const ProfaneWords: set<string> := {"kerfuffle", "sharbert", "fornax"}

  const Mask: string := "****"

  /** `strings.ToLower` on ASCII letters; every other character is kept. */
  function LowerChar(c: char): char {
    if 'A' <= c <= 'Z' then (c as int + 32) as char else c
  }

  function ToLower(s: string): string {
    seq(|s|, i requires 0 <= i < |s| => LowerChar(s[i]))
  }

  predicate IsProfane(word: string) {
    ToLower(word) in ProfaneWords
  }

  function MaskWord(word: string): string {
    if IsProfane(word) then Mask else word
  }

  function MaskWords(words: seq<string>): (masked: seq<string>)
    ensures |masked| == |words|
    ensures forall i :: 0 <= i < |words| ==> masked[i] == MaskWord(words[i])
  {
    if |words| == 0 then [] else [MaskWord(words[0])] + MaskWords(words[1..])
  }

  /** What `cleanChirpBody` returns. */
  function Cleaned(original: string): string {
    Join(MaskWords(Split(original)))
  }

  /** `cleanChirpBody`: split on single spaces, replace each word whose
      lower-case form is profane by `****`, join with single spaces. */
  method CleanChirpBody(original: string) returns (cleaned: string)
    ensures cleaned == Cleaned(original)
  {
    var originalWords := Split(original);
    var newWords: seq<string> := [];
    for i := 0 to |originalWords|
      invariant |newWords| == i
      invariant forall j :: 0 <= j < i ==> newWords[j] == MaskWord(originalWords[j])
    {
      var word := originalWords[i];
      if ToLower(word) in ProfaneWords {
        newWords := newWords + [Mask];
      } else {
        newWords := newWords + [word];
      }
    }
    assert newWords == MaskWords(originalWords);
    cleaned := Join(newWords);
  }

  /** A profane word is never `****` itself, and `****` is not profane. */
  lemma MaskIsNotProfane(word: string)
    ensures !IsProfane(Mask)
    ensures IsProfane(word) ==> word != Mask
  {
    assert ToLower(Mask) == Mask;
    if IsProfane(word) {
      assert |word| == |ToLower(word)| != 4;
    }
  }

  /** The cleaned text has the same words, in order, except that each profane
      word became `****`; in particular the word count is kept, empty words
      from repeated spaces included. */
  lemma CleanedWords(original: string)
    ensures Split(Cleaned(original)) == MaskWords(Split(original))
    ensures |Split(Cleaned(original))| == |Split(original)|
  {
    var masked := MaskWords(Split(original));
    assert SpaceFree(masked) by {
      forall i | 0 <= i < |masked| ensures ' ' !in masked[i] {
        assert ' ' !in Mask;
      }
    }
    SplitJoin(masked);
  }

  /** Cleaning twice is cleaning once. */
  lemma CleanIsIdempotent(original: string)
    ensures Cleaned(Cleaned(original)) == Cleaned(original)
  {
    CleanedWords(original);
    var words := Split(original);
    MaskIsNotProfane("");
    assert MaskWords(MaskWords(words)) == MaskWords(words);
  }

  /** A text comes back unchanged exactly when none of its words is profane. */
  lemma CleanUnchangedIffNoProfanity(original: string)
    ensures Cleaned(original) == original <==> forall i :: 0 <= i < |Split(original)| ==> !IsProfane(Split(original)[i])
  {
    var words := Split(original);
    JoinSplit(original);
    if forall i :: 0 <= i < |words| ==> !IsProfane(words[i]) {
      assert MaskWords(words) == words;
    } else {
      var i :| 0 <= i < |words| && IsProfane(words[i]);
      MaskIsNotProfane(words[i]);
      CleanedWords(original);
      assert Split(Cleaned(original))[i] != words[i];
    }
  }

  /** Matching is on whole words and ignores ASCII letter case: a word with
      punctuation attached is kept. */
  lemma WholeWordsCaseInsensitive()
    ensures MaskWord("KerFuffle") == Mask
    ensures MaskWord("SHARBERT") == Mask
    ensures MaskWord("kerfuffle!") == "kerfuffle!"
  {
    assert ToLower("KerFuffle") == "kerfuffle";
    assert ToLower("SHARBERT") == "sharbert";
    assert |ToLower("kerfuffle!")| == 10;
  }

  /** The first text the package's own tests use, "This is only a test",
      comes back unchanged. */
  lemma CleanTestTextUnchanged()
    ensures Cleaned("This is only a test") == "This is only a test"
  {
    var words := ["This", "is", "only", "a", "test"];
    var text := Join(words);
    assert text == "This is only a test";
    CleanTestWordsUnchanged(words);
  }

  /** The same text as a list of words: no word is masked. */
  lemma CleanTestWordsUnchanged(words: seq<string>)
    requires words == ["This", "is", "only", "a", "test"]
    ensures Cleaned(Join(words)) == Join(words)
  {
    SplitJoin(words);
    forall i | 0 <= i < |words| ensures !IsProfane(words[i]) {
      assert |ToLower(words[i])| <= 4;
    }
    CleanUnchangedIffNoProfanity(Join(words));
  }

  /** The second one, "This is only a kerfuffle", has its last word masked. */
  lemma CleanTestTextMasked()
    ensures Cleaned("This is only a kerfuffle") == "This is only a ****"
  {
    var words := ["This", "is", "only", "a", "kerfuffle"];
    var masked := ["This", "is", "only", "a", "****"];
    var text, result := Join(words), Join(masked);
    assert text == "This is only a kerfuffle";
    assert result == "This is only a ****";
    CleanTestWordsMasked(words, masked);
  }

  /** The same text as a list of words: only the last one is masked. */
  lemma CleanTestWordsMasked(words: seq<string>, masked: seq<string>)
    requires words == ["This", "is", "only", "a", "kerfuffle"]
    requires masked == ["This", "is", "only", "a", Mask]
    ensures Cleaned(Join(words)) == Join(masked)
  {
    SplitJoin(words);
    forall i | 0 <= i < 4 ensures MaskWord(words[i]) == words[i] {
      assert |ToLower(words[i])| <= 4;
    }
    assert ToLower("kerfuffle") == "kerfuffle";
    assert MaskWords(words) == masked;
  }

  // ---------------------------------------------------------------------------
  // Length in bytes
  // ---------------------------------------------------------------------------

  const MaxChirpLength: nat := 140

  /** Bytes in the UTF-8 encoding of one character. */
  function Utf8Width(c: char): nat {
    if c as int < 0x80 then 1
    else if c as int < 0x800 then 2
    else if c as int < 0x1_0000 then 3
    else 4
  }

  /** `len(s)` of a Go string: its UTF-8 byte count. */
  function Utf8Len(s: string): nat {
    if |s| == 0 then 0 else Utf8Width(s[0]) + Utf8Len(s[1..])
  }

  /** The handlers' guard `len(body) > 140`. */
  predicate TooLong(body: string) {
    Utf8Len(body) > MaxChirpLength
  }

  lemma {:induction false} Utf8LenAppend(a: string, b: string)
    ensures Utf8Len(a + b) == Utf8Len(a) + Utf8Len(b)
  {
    if |a| > 0 {
      Utf8LenAppend(a[1..], b);
      assert (a + b)[0] == a[0];
      assert (a + b)[1..] == a[1..] + b;
    } else {
      assert a + b == b;
    }
  }

  /** A text has at least one byte per character and at most four; an ASCII
      text has exactly one. */
  lemma {:induction false} Utf8LenBounds(s: string)
    ensures |s| <= Utf8Len(s) <= 4 * |s|
    ensures (forall i :: 0 <= i < |s| ==> s[i] as int < 0x80) ==> Utf8Len(s) == |s|
  {
    if |s| > 0 {
      Utf8LenBounds(s[1..]);
    }
  }

  /** A word that the mask replaces has at least six characters, so at
      least six bytes, while `****` has four: masking never lengthens a word. */
  lemma MaskWordNotLonger(word: string)
    ensures Utf8Len(MaskWord(word)) <= Utf8Len(word)
  {
    if IsProfane(word) {
      Utf8LenBounds(word);
      assert |word| >= 6;
      Utf8LenBounds(Mask);
    }
  }

  lemma {:induction false} JoinMaskedNotLonger(words: seq<string>)
    ensures Utf8Len(Join(MaskWords(words))) <= Utf8Len(Join(words))
  {
    if |words| == 1 {
      MaskWordNotLonger(words[0]);
    } else if |words| > 1 {
      JoinMaskedNotLonger(words[1..]);
      MaskWordNotLonger(words[0]);
      var masked := MaskWords(words);
      assert masked[1..] == MaskWords(words[1..]);
      Utf8LenAppend(masked[0] + " ", Join(masked[1..]));
      Utf8LenAppend(masked[0], " ");
      Utf8LenAppend(words[0] + " ", Join(words[1..]));
      Utf8LenAppend(words[0], " ");
    }
  }

  /** Cleaning never makes a text longer in bytes, so a body that passed the
      140-byte guard is stored within 140 bytes. */
  lemma CleanedNotLonger(original: string)
    ensures Utf8Len(Cleaned(original)) <= Utf8Len(original)
    ensures !TooLong(original) ==> !TooLong(Cleaned(original))
  {
    JoinMaskedNotLonger(Split(original));
    JoinSplit(original);
  }
}
