/** The mnemonic word list: splitting the list, and the way back from a word to its index. */
module Mnemonic {
  import opened Wrappers
  import opened Sequences

  const MAX_WORDS: nat := 2048

  datatype MnemonicError = TooManyWords | RepeatedWord

  // ---------- splitting the word list ----------

  /** The words of the list from position i on, where the current word began at `begin`. */
  function SplitFrom(list: string, begin: nat, i: nat): seq<string>
    requires begin <= i <= |list|
    decreases |list| - i
  {
    if i == |list| then []
    else if list[i] == ',' then [list[begin..i]] + SplitFrom(list, i + 1, i + 1)
    else if i == |list| - 1 then [list[begin..]]
    else SplitFrom(list, begin, i + 1)
  }

  function Join(words: seq<string>): string {
    if words == [] then "" else words[0] + "," + Join(words[1..])
  }

  /** Joining the words gives the list back, with a comma at the end; the words themselves have no commas. */
  lemma {:induction false} SplitIsInverse(list: string, begin: nat, i: nat)
    requires begin <= i <= |list| && ',' !in list[begin..i] && (i == |list| ==> begin == i)
    ensures var words := SplitFrom(list, begin, i);
      && (forall k :: 0 <= k < |words| ==> ',' !in words[k])
      && Join(words) == list[begin..] + if begin == |list| || list[|list|-1] == ',' then "" else ","
    decreases |list| - i
  {
    if i < |list| {
      if list[i] == ',' {
        SplitIsInverse(list, i + 1, i + 1);
        assert list[begin..] == list[begin..i] + "," + list[i+1..];
      } else if i == |list| - 1 {
        assert list[begin..] == list[begin..i] + [list[i]];
        assert Join([list[begin..]][1..]) == "";
      } else {
        assert list[begin..i+1] == list[begin..i] + [list[i]];
        SplitIsInverse(list, begin, i + 1);
      }
    }
  }

  /** What is left of a word as a C string: the part before the first zero character. */
  function CString(word: string): string {
    if word == "" || word[0] == '\0' then "" else [word[0]] + CString(word[1..])
  }

  /** All of the word, if it has no zero character. */
  lemma {:induction false} CStringIsFront(word: string)
    ensures var front := CString(word);
      && front <= word && '\0' !in front && (|front| < |word| ==> word[|front|] == '\0')
  {
    if word != "" && word[0] != '\0' { CStringIsFront(word[1..]); }
  }

  // ---------- the tables ----------

  type Collisions = map<nat, map<string, nat>>

  predicate HasHash(words: seq<string>, hash: string -> nat, i: int, v: nat) {
    0 <= i < |words| && hash(words[i]) == v
  }

  /** The index table has the first word of every hash. */
  ghost predicate FirstWords(words: seq<string>, hash: string -> nat, indices: map<nat, nat>) {
    && (forall i :: 0 <= i < |words| ==> hash(words[i]) in indices)
    && (forall v :: v in indices ==> HasHash(words, hash, indices[v], v))
  }

  /** The words of one hash, each with its index. */
  ghost predicate ListsWords(words: seq<string>, hash: string -> nat, v: nat, listed: map<string, nat>) {
    && (forall i :: HasHash(words, hash, i, v) ==> words[i] in listed && listed[words[i]] == i)
    && (forall w :: w in listed ==> HasHash(words, hash, listed[w], v) && words[listed[w]] == w)
  }

  ghost predicate OnlyWord(words: seq<string>, hash: string -> nat, v: nat, k: nat) {
    forall i :: HasHash(words, hash, i, v) <==> i == k
  }

  /** Under a colliding hash all its words are listed; any other hash has a single word. */
  ghost predicate AllCollisions(words: seq<string>, hash: string -> nat, indices: map<nat, nat>, collisions: Collisions) {
    && collisions.Keys <= indices.Keys
    && (forall v :: v in collisions ==> ListsWords(words, hash, v, collisions[v]) && !OnlyWord(words, hash, v, indices[v]))
    && (forall v :: v in indices && v !in collisions ==> OnlyWord(words, hash, v, indices[v]))
  }

  ghost predicate TablesHold(words: seq<string>, hash: string -> nat, indices: map<nat, nat>, collisions: Collisions) {
    Distinct(words) && FirstWords(words, hash, indices) && AllCollisions(words, hash, indices, collisions)
  }

  lemma HashesNext(words: seq<string>, hash: string -> nat, word: string)
    ensures forall i, v :: HasHash(words + [word], hash, i, v) <==> HasHash(words, hash, i, v) || (i == |words| && v == hash(word))
  {
  }

  /** Words of other hashes do not matter. */
  lemma OtherHash(words: seq<string>, hash: string -> nat, word: string, v: nat)
    requires v != hash(word)
    ensures forall listed :: ListsWords(words, hash, v, listed) ==> ListsWords(words + [word], hash, v, listed)
    ensures forall k :: OnlyWord(words, hash, v, k) <==> OnlyWord(words + [word], hash, v, k)
  {
    HashesNext(words, hash, word);
  }

  lemma OthersKeep(words: seq<string>, hash: string -> nat, indices: map<nat, nat>, collisions: Collisions, word: string)
    requires AllCollisions(words, hash, indices, collisions)
    ensures forall u :: u in collisions && u != hash(word) ==>
      ListsWords(words + [word], hash, u, collisions[u]) && !OnlyWord(words + [word], hash, u, indices[u])
    ensures forall u :: u in indices && u !in collisions && u != hash(word) ==> OnlyWord(words + [word], hash, u, indices[u])
  {
    hide ListsWords, OnlyWord;
    forall u | u in indices && u != hash(word)
      ensures u in collisions ==> ListsWords(words + [word], hash, u, collisions[u]) && !OnlyWord(words + [word], hash, u, indices[u])
      ensures u !in collisions ==> OnlyWord(words + [word], hash, u, indices[u])
    {
      OtherHash(words, hash, word, u);
    }
  }

  /** A word with a new hash. */
  lemma NewHash(words: seq<string>, hash: string -> nat, indices: map<nat, nat>, collisions: Collisions, word: string)
    requires TablesHold(words, hash, indices, collisions) && hash(word) !in indices
    ensures word !in words && TablesHold(words + [word], hash, indices[hash(word) := |words|], collisions)
  {
    hide ListsWords;
    var words', v := words + [word], hash(word);
    HashesNext(words, hash, word);
    assert word !in words by {
      if i :| 0 <= i < |words| && words[i] == word { assert hash(words[i]) in indices; }
    }
    assert OnlyWord(words', hash, v, |words|) by {
      forall i ensures !HasHash(words, hash, i, v) {
        assert 0 <= i < |words| ==> hash(words[i]) in indices;
      }
    }
    OthersKeep(words, hash, indices, collisions, word);
    hide OnlyWord;
    assert FirstWords(words', hash, indices[v := |words|]);
  }

  /** A word whose hash is taken joins the list of the hash. */
  lemma TakenHash(words: seq<string>, hash: string -> nat, indices: map<nat, nat>, collisions: Collisions, word: string,
                  listed: map<string, nat>)
    requires TablesHold(words, hash, indices, collisions) && hash(word) in indices
    requires ListsWords(words, hash, hash(word), listed)
    ensures word in listed <==> word in words
    ensures word !in listed ==> TablesHold(words + [word], hash, indices, collisions[hash(word) := listed[word := |words|]])
  {
    hide Distinct, OnlyWord, ListsWords, FirstWords;
    ListedIsInList(words, hash, word, listed);
    if word !in listed {
      FirstWordsKeep(words, hash, indices, word);
      OneMoreListed(words, hash, word, listed, indices[hash(word)]);
      OthersKeep(words, hash, indices, collisions, word);
      StillDistinct(words, word);
    }
  }

  lemma FirstWordsKeep(words: seq<string>, hash: string -> nat, indices: map<nat, nat>, word: string)
    requires FirstWords(words, hash, indices) && hash(word) in indices
    ensures FirstWords(words + [word], hash, indices) && HasHash(words, hash, indices[hash(word)], hash(word))
  {
    HashesNext(words, hash, word);
  }

  lemma StillDistinct(words: seq<string>, word: string)
    requires Distinct(words) && word !in words
    ensures Distinct(words + [word])
  {
  }

  lemma ListedIsInList(words: seq<string>, hash: string -> nat, word: string, listed: map<string, nat>)
    requires ListsWords(words, hash, hash(word), listed)
    ensures word in listed <==> word in words
  {
    if i :| 0 <= i < |words| && words[i] == word {
      assert HasHash(words, hash, i, hash(word));
    }
  }

  lemma OneMoreListed(words: seq<string>, hash: string -> nat, word: string, listed: map<string, nat>, first: nat)
    requires ListsWords(words, hash, hash(word), listed) && word !in listed && HasHash(words, hash, first, hash(word))
    ensures ListsWords(words + [word], hash, hash(word), listed[word := |words|])
    ensures !OnlyWord(words + [word], hash, hash(word), first)
  {
    HashesNext(words, hash, word);
    assert HasHash(words + [word], hash, |words|, hash(word));
  }

  class Mnemonic {
    const hash: string -> nat
    var words: seq<string>
    var wordHashIndices: map<nat, nat>
    var hashCollisionWords: Collisions

    constructor (hash: string -> nat)
      ensures this.hash == hash && words == []
    {
      this.hash, words, wordHashIndices, hashCollisionWords := hash, [], map[], map[];
    }

    /** Enters the next word; fails exactly for a word that is in the list already. */
    method AddWord(word: string) returns (r: Result<(), MnemonicError>)
      requires TablesHold(words, hash, wordHashIndices, hashCollisionWords)
      modifies this
      ensures r.Success? <==> word !in old(words)
      ensures r.Failure? ==> words == old(words)
      ensures r.Success? ==> words == old(words) + [word] && TablesHold(words, hash, wordHashIndices, hashCollisionWords)
    {
      hide Distinct, ListsWords;
      var v, cursor := hash(word), |words|;
      if v !in wordHashIndices {
        NewHash(words, hash, wordHashIndices, hashCollisionWords, word);
        wordHashIndices := wordHashIndices[v := cursor];
      } else {
        var first := wordHashIndices[v];
        ghost var before := hashCollisionWords;
        if v !in hashCollisionWords {
          FirstListed(words, hash, v, first);
          hashCollisionWords := hashCollisionWords[v := map[words[first] := first]];
        }
        TakenHash(words, hash, wordHashIndices, before, word, hashCollisionWords[v]);
        if word in hashCollisionWords[v] {
          return Failure(RepeatedWord);
        }
        hashCollisionWords := hashCollisionWords[v := hashCollisionWords[v][word := cursor]];
        assert hashCollisionWords == before[v := hashCollisionWords[v]];
      }
      words := words + [word];
      r := Success(());
    }

    ghost predicate Valid()
      reads this
    {
      Ready(words, hash, wordHashIndices, hashCollisionWords)
    }

    /** After a failure the tables are left as they are. */
    method Init(list: string) returns (r: Result<(), MnemonicError>)
      modifies this
      ensures r.Success? <==> |Split(list)| <= 2048 && Distinct(Split(list))
      ensures r.Success? ==> Valid() && words == Split(list)
    {
      hide Distinct, FirstWords, AllCollisions, CStrings;
      words, wordHashIndices, hashCollisionWords := [], map[], map[];
      EmptyTables(words, hash, wordHashIndices, hashCollisionWords);
      var wordBegin := 0;
      ghost var done := [];
      for i := 0 to |list|
        invariant wordBegin <= i && SplitFrom(list, 0, 0) == done + SplitFrom(list, wordBegin, i)
        invariant words == CStrings(done) && |words| <= MAX_WORDS
        invariant TablesHold(words, hash, wordHashIndices, hashCollisionWords)
      {
        ghost var rest := SplitFrom(list, wordBegin, i);
        if |words| >= MAX_WORDS {
          MoreWords(list, wordBegin, i);
          CStringsLength(done);
          CStringsLength(SplitFrom(list, 0, 0));
          return Failure(TooManyWords);
        }
        if list[i] == ',' || i == |list| - 1 {
          var wordSize := i - wordBegin;
          if list[i] != ',' {
            wordSize := wordSize + 1;
          }
          var word := list[wordBegin..wordBegin + wordSize];
          OneWordFurther(list, done, wordBegin, i, word);
          var added := AddWord(CString(word));
          if added.Failure? {
            Repeated(words, CString(word), CStrings(SplitFrom(list, i + 1, i + 1)));
            return added;
          }
          done := done + [word];
          wordBegin := i + 1;
        }
      }
      assert SplitFrom(list, 0, 0) == done;
      ErasingIsReady(words, hash, wordHashIndices, hashCollisionWords);
      wordHashIndices := wordHashIndices - hashCollisionWords.Keys;
      r := Success(());
    }

    /**
     The index of a word in the list. A word that is not in the list gets -1, unless its hash is
     that of exactly one word in the list: then it gets the index of that word.
     */
    method GetWordIndex(word: string) returns (index: int)
      requires Valid()
      ensures forall i :: 0 <= i < |words| && words[i] == word ==> index == i
      ensures index != -1 ==> 0 <= index < |words| && (words[index] == word || OnlyWord(words, hash, hash(word), index))
      ensures index == -1 <==> word !in words && forall k :: !IsOnlyWord(words, hash, hash(word), k)
    {
      hide OnlyWord, ListsWords;
      var v := hash(word);
      WordOfReady(words, hash, wordHashIndices, hashCollisionWords, word);
      if v in wordHashIndices {
        return wordHashIndices[v];
      }
      if v in hashCollisionWords {
        if word in hashCollisionWords[v] {
          return hashCollisionWords[v][word];
        }
      }
      index := -1;
    }
  }

  /** The words Init enters: C strings. */
  ghost function Split(list: string): seq<string> {
    CStrings(SplitFrom(list, 0, 0))
  }

  function CStrings(words: seq<string>): seq<string> {
    if words == [] then [] else CStrings(words[..|words|-1]) + [CString(words[|words|-1])]
  }

  lemma {:induction false} CStringsLength(words: seq<string>)
    ensures |CStrings(words)| == |words|
  {
    if words != [] { CStringsLength(words[..|words|-1]); }
  }

  lemma {:induction false} CStringsConcat(a: seq<string>, b: seq<string>)
    ensures CStrings(a + b) == CStrings(a) + CStrings(b)
  {
    if b == [] {
      assert a + b == a;
    } else {
      var ab, init := a + b, b[..|b|-1];
      assert ab[..|ab|-1] == a + init;
      CStringsConcat(a, init);
      assert CStrings(ab) == (CStrings(a) + CStrings(init)) + [CString(b[|b|-1])];
    }
  }

  /** Cutting off the next word. */
  lemma OneWordFurther(list: string, done: seq<string>, begin: nat, i: nat, word: string)
    requires begin <= i < |list| && SplitFrom(list, 0, 0) == done + SplitFrom(list, begin, i)
    requires list[i] == ',' || i == |list| - 1
    requires word == list[begin..if list[i] == ',' then i else i + 1]
    ensures SplitFrom(list, 0, 0) == (done + [word]) + SplitFrom(list, i + 1, i + 1)
    ensures CStrings(done + [word]) == CStrings(done) + [CString(word)]
    ensures CStrings(SplitFrom(list, 0, 0)) == CStrings(done) + [CString(word)] + CStrings(SplitFrom(list, i + 1, i + 1))
  {
    hide CString;
    var rest := SplitFrom(list, i + 1, i + 1);
    assert list[begin..] == list[begin..|list|];
    assert SplitFrom(list, begin, i) == [word] + rest;
    assert done + ([word] + rest) == (done + [word]) + rest;
    assert (done + [word])[..|done|] == done;
    CStringsConcat(done + [word], rest);
  }

  lemma {:induction false} MoreWords(list: string, begin: nat, i: nat)
    requires begin <= i < |list|
    ensures |SplitFrom(list, begin, i)| >= 1
    decreases |list| - i
  {
    if list[i] != ',' && i < |list| - 1 { MoreWords(list, begin, i + 1); }
  }

  lemma Repeated(words: seq<string>, word: string, rest: seq<string>)
    requires word in words
    ensures !Distinct(words + [word] + rest)
  {
    var i :| 0 <= i < |words| && words[i] == word;
    var all := words + [word] + rest;
    assert all[i] == all[|words|];
  }

  lemma EmptyTables(words: seq<string>, hash: string -> nat, indices: map<nat, nat>, collisions: Collisions)
    requires words == [] && indices == map[] && collisions == map[]
    ensures TablesHold(words, hash, indices, collisions) && CStrings([]) == words
  {
  }

  // ---------- the way back ----------

  ghost predicate IsOnlyWord(words: seq<string>, hash: string -> nat, v: nat, k: int) {
    k >= 0 && OnlyWord(words, hash, v, k)
  }

  /** The tables without the colliding hashes in the index table. */
  ghost predicate Ready(words: seq<string>, hash: string -> nat, indices: map<nat, nat>, collisions: Collisions) {
    && Distinct(words) && (forall i :: 0 <= i < |words| ==> hash(words[i]) in indices || hash(words[i]) in collisions)
    && (forall v :: v in indices ==> v !in collisions && HasHash(words, hash, indices[v], v) && OnlyWord(words, hash, v, indices[v]))
    && (forall v :: v in collisions ==> ListsWords(words, hash, v, collisions[v]) && forall k :: !IsOnlyWord(words, hash, v, k))
  }

  lemma ErasingIsReady(words: seq<string>, hash: string -> nat, indices: map<nat, nat>, collisions: Collisions)
    requires TablesHold(words, hash, indices, collisions)
    ensures Ready(words, hash, indices - collisions.Keys, collisions)
  {
    hide Distinct, ListsWords;
    forall v, k | v in collisions ensures !IsOnlyWord(words, hash, v, k) {
      assert HasHash(words, hash, indices[v], v);
    }
  }

  lemma WordOfReady(words: seq<string>, hash: string -> nat, indices: map<nat, nat>, collisions: Collisions, word: string)
    requires Ready(words, hash, indices, collisions)
    ensures var v := hash(word);
      && (v in indices ==>
        && IsOnlyWord(words, hash, v, indices[v]) && indices[v] < |words|
        && forall i :: 0 <= i < |words| && words[i] == word ==> i == indices[v])
      && (v in collisions ==> (word in collisions[v] <==> word in words))
      && (v in collisions && word in words ==>
        && collisions[v][word] < |words| && words[collisions[v][word]] == word
        && forall i :: 0 <= i < |words| && words[i] == word ==> i == collisions[v][word])
      && (v !in indices && v !in collisions ==> word !in words && forall k :: !IsOnlyWord(words, hash, v, k))
  {
    var v := hash(word);
    forall i | 0 <= i < |words| && words[i] == word
      ensures HasHash(words, hash, i, v) && (v in indices || v in collisions)
    {
    }
    if v !in indices && v !in collisions {
      forall k ensures !IsOnlyWord(words, hash, v, k) {
        assert !HasHash(words, hash, k, v);
      }
    }
  }

  lemma FirstListed(words: seq<string>, hash: string -> nat, v: nat, first: nat)
    requires OnlyWord(words, hash, v, first) && HasHash(words, hash, first, v)
    ensures ListsWords(words, hash, v, map[words[first] := first])
  {
  }

  // ---------- the hash ----------

  const HASH_RANGE: nat := 0x1_0000_0000

  /** A rotation of 32 bits by seven to the left. */
  function RotateLeft7(h: nat): (r: nat)
    requires h < HASH_RANGE
  {
    (h * 128) % HASH_RANGE + h / 0x200_0000
  }

  /** The value of a signed char. */
  function CharValue(c: char): (v: int)
    ensures c as int < 256 ==> -128 <= v < 128 && (v - c as int) % 256 == 0
  {
    if c as int < 128 then c as int else c as int - 256
  }

  /** DRMakeStringHash: rotate and add, character by character. */
  function MakeStringHash(word: string): (h: nat)
    ensures h < HASH_RANGE
  {
    if word == "" then 0
    else (RotateLeft7(MakeStringHash(word[..|word|-1])) + CharValue(word[|word|-1])) % HASH_RANGE
  }

  predicate IsLowerCase(word: string) {
    forall i :: 0 <= i < |word| ==> 'a' <= word[i] <= 'z'
  }

  /** The first letter sixteen further, the last one back. */
  function Twin(word: string): string
    requires |word| == 5 && IsLowerCase(word) && word[0] <= 'j' && word[4] != 'a'
  {
    [word[0] + 16 as char] + word[1..4] + [word[4] - 1 as char]
  }

  lemma HashOfFour(word: string)
    requires |word| == 4 && IsLowerCase(word)
    ensures MakeStringHash(word) ==
      word[0] as int * 0x20_0000 + word[1] as int * 0x4000 + word[2] as int * 0x80 + word[3] as int
  {
    assert MakeStringHash("") == 0;
    hide MakeStringHash;
    NextLetter("", word[0]);
    NextLetter([word[0]], word[1]);
    NextLetter([word[0]] + [word[1]], word[2]);
    NextLetter([word[0]] + [word[1]] + [word[2]], word[3]);
    assert word == [word[0]] + [word[1]] + [word[2]] + [word[3]] && [word[0]] == "" + [word[0]];
  }

  /** As long as nothing is rotated out, a letter is a digit to the base 128. */
  lemma NextLetter(word: string, c: char)
    requires MakeStringHash(word) < 0x100_0000 && 'a' <= c <= 'z'
    ensures MakeStringHash(word + [c]) == MakeStringHash(word) * 128 + c as int
  {
    hide MakeStringHash, RotateLeft7;
    UnfoldHash(word, c);
    NothingRotatedOut(MakeStringHash(word), c as int);
  }

  lemma UnfoldHash(word: string, c: char)
    ensures MakeStringHash(word + [c]) == (RotateLeft7(MakeStringHash(word)) + CharValue(c)) % HASH_RANGE
  {
    hide RotateLeft7, CharValue;
    var longer := word + [c];
    assert longer[..|longer|-1] == word && longer[|longer|-1] == c;
  }

  lemma NothingRotatedOut(h: nat, c: nat)
    requires h < 0x100_0000 && c < 128
    ensures (RotateLeft7(h) + c) % HASH_RANGE == h * 128 + c
  {
  }

  /** Five-letter words that begin with a to j and do not end with a have a twin of the same hash. */
  lemma TwinHasSameHash(word: string)
    requires |word| == 5 && IsLowerCase(word) && word[0] <= 'j' && word[4] != 'a'
    ensures IsLowerCase(Twin(word)) && Twin(word) != word && MakeStringHash(Twin(word)) == MakeStringHash(word)
  {
    hide MakeStringHash, RotateLeft7;
    var twin := Twin(word);
    var a, b := word[..4], twin[..4];
    HashOfFour(a);
    HashOfFour(b);
    assert word == a + [word[4]] && twin == b + [twin[4]];
    UnfoldHash(a, word[4]);
    UnfoldHash(b, twin[4]);
    OneRotationFurther(MakeStringHash(a));
  }

  lemma OneRotationFurther(h: nat)
    requires h + 0x200_0000 < HASH_RANGE
    ensures RotateLeft7(h + 0x200_0000) == RotateLeft7(h) + 1
  {
    assert (h + 0x200_0000) * 128 == h * 128 + HASH_RANGE;
  }

  lemma CStringOfLetters(word: string)
    requires '\0' !in word
    ensures CString(word) == word
  {
  }

  /** A word up to the comma that ends the list. */
  lemma {:induction false} LastWord(list: string, i: nat)
    requires i < |list| && list[|list|-1] == ',' && forall j :: 0 <= j < |list| - 1 ==> list[j] != ','
    ensures SplitFrom(list, 0, i) == [list[..|list|-1]]
    decreases |list| - i
  {
    if i < |list| - 1 { LastWord(list, i + 1); }
  }

  lemma OneWordList(word: string)
    requires ',' !in word && '\0' !in word
    ensures Split(word + ",") == [word]
  {
    var list := word + ",";
    assert list[..|list|-1] == word;
    LastWord(list, 0);
    CStringOfLetters(word);
    hide CString;
    assert [word][..0] == [];
    assert CStrings([word]) == CStrings([]) + [CString(word)];
  }

  /** The only word of a list gives its index to every word of its hash. */
  lemma OnlyWordOfOne(word: string, hash: string -> nat)
    ensures IsOnlyWord([word], hash, hash(word), 0)
  {
    assert HasHash([word], hash, 0, hash(word));
  }

  lemma AboutHasTwin()
    ensures MakeStringHash("qbous") == MakeStringHash("about")
  {
    hide MakeStringHash;
    var word: string := "about";
    assert Twin(word) == "qbous";
    TwinHasSameHash(word);
  }

  /** In a list with the one word "about" its twin "qbous" is found. */
  method UnlistedWordExample() returns (mnemonic: Mnemonic, index: int)
    ensures mnemonic.hash == MakeStringHash && mnemonic.words == ["about"] && mnemonic.Valid()
    ensures index == 0 && "qbous" !in mnemonic.words
  {
    mnemonic := new Mnemonic(MakeStringHash);
    hide Split, CStrings, MakeStringHash;
    assert "about," == "about" + ",";
    OneWordList("about");
    AboutHasTwin();
    OnlyWordOfOne("about", MakeStringHash);
    var r := mnemonic.Init("about,");
    index := mnemonic.GetWordIndex("qbous");
  }
}
