/** The key schedule of class AES256CBC: expandKey and getRoundKey. */
module AesKeys {
  import opened AesTables
  import opened AesBlock

  type word = bv32

  const KEY_WORDS := 8
  const SCHEDULE_WORDS := 60
  const RCON: seq<octet> := [0x01, 0x02, 0x04, 0x08, 0x10, 0x20, 0x40, 0x80, 0x1b, 0x36]

  function Pack(a: octet, b: octet, c: octet, d: octet): word
  {
    ((a as word) << 24) | ((b as word) << 16) | ((c as word) << 8) | (d as word)
  }

  /** Octet j of a word, most significant first. */
  function WordOctet(w: word, j: nat): octet
    requires j < 4
  {
    if j == 0 then ((w >> 24) & 0xff) as octet
    else if j == 1 then ((w >> 16) & 0xff) as octet
    else if j == 2 then ((w >> 8) & 0xff) as octet
    else (w & 0xff) as octet
  }

  lemma PackOctets(a: octet, b: octet, c: octet, d: octet)
    ensures var w := Pack(a, b, c, d);
            WordOctet(w, 0) == a && WordOctet(w, 1) == b && WordOctet(w, 2) == c && WordOctet(w, 3) == d
  {
  }

  function RotWord(t: word): word
  {
    (t << 8) | (t >> 24)
  }

  function SubWord(t: word): word
  {
    Pack(SBox(WordOctet(t, 0)), SBox(WordOctet(t, 1)), SBox(WordOctet(t, 2)), SBox(WordOctet(t, 3)))
  }

  function XorWords(a: word, b: word): word
  {
    a ^ b
  }

  function Rcon(i: nat): word
  {
    if 1 <= i <= 10 then (RCON[i - 1] as word) << 24 else 0
  }

  /** What is added to the word eight places back: the previous word, transformed at every fourth. */
  function ScheduleCore(i: nat, t: word): word
  {
    if i % KEY_WORDS == 0 then XorWords(SubWord(RotWord(t)), Rcon(i / KEY_WORDS))
    else if i % KEY_WORDS == 4 then SubWord(t)
    else t
  }

  function KeyWord(key: seq<octet>, i: nat): word
    requires |key| == 32 && i < KEY_WORDS
  {
    Pack(key[i * 4], key[i * 4 + 1], key[i * 4 + 2], key[i * 4 + 3])
  }

  /** Word i of a schedule with the given first words. */
  function Expand(core: (nat, word) -> word, first: seq<word>, i: nat): word
    requires |first| == KEY_WORDS
  {
    if i < KEY_WORDS then first[i]
    else XorWords(Expand(core, first, i - KEY_WORDS), core(i, Expand(core, first, i - 1)))
  }

  function KeyWords(key: seq<octet>): (w: seq<word>)
    requires |key| == 32
    ensures |w| == KEY_WORDS
  {
    seq(KEY_WORDS, i requires 0 <= i < KEY_WORDS => KeyWord(key, i))
  }

  /** Word i of the expanded key. */
  function ScheduleWord(key: seq<octet>, i: nat): word
    requires |key| == 32
  {
    Expand(ScheduleCore, KeyWords(key), i)
  }

  function RoundKey(w: seq<word>, round: nat): Block
    requires |w| == SCHEDULE_WORDS && round <= ROUNDS
  {
    seq(16, i requires 0 <= i < 16 => WordOctet(w[round * 4 + i / 4], i % 4))
  }

  function KeysOf(w: seq<word>): RoundKeys
    requires |w| == SCHEDULE_WORDS
  {
    seq(ROUNDS + 1, r requires 0 <= r <= ROUNDS => RoundKey(w, r))
  }

  /** The round keys of a 32-octet key. */
  function KeySchedule(key: seq<octet>): RoundKeys
    requires |key| == 32
  {
    KeysOf(seq(SCHEDULE_WORDS, i requires 0 <= i < SCHEDULE_WORDS => ScheduleWord(key, i)))
  }

  method Rotate(t: word) returns (r: word)
    ensures r == RotWord(t)
  {
    r := (t << 8) | (t >> 24);
  }

  /** The transformation of the previous word inside the loop of expandKey. */
  method TransformWord(i: nat, previous: word) returns (temp: word)
    requires KEY_WORDS <= i < SCHEDULE_WORDS
    ensures temp == ScheduleCore(i, previous)
  {
    temp := previous;
    if i % KEY_WORDS == 0 {
      temp := Rotate(temp);
      temp := SubWord(temp);
      temp := temp ^ ((RCON[i / KEY_WORDS - 1] as word) << 24);
    } else if i % KEY_WORDS == 4 {
      temp := SubWord(temp);
    }
  }

  /** The first loop of expandKey. */
  method LoadKey(key: seq<octet>, w: array<word>)
    requires |key| == 32 && w.Length == SCHEDULE_WORDS
    modifies w
    ensures forall j :: 0 <= j < KEY_WORDS ==> w[j] == KeyWord(key, j)
  {
    for i := 0 to KEY_WORDS
      invariant forall j :: 0 <= j < i ==> w[j] == KeyWord(key, j)
    {
      w[i] := ((key[i * 4] as word) << 24) | ((key[i * 4 + 1] as word) << 16)
              | ((key[i * 4 + 2] as word) << 8) | (key[i * 4 + 3] as word);
    }
  }

  lemma ScheduleUnfold(key: seq<octet>, i: nat)
    requires |key| == 32
    ensures ScheduleWord(key, i) ==
              if i < KEY_WORDS then KeyWord(key, i)
              else XorWords(ScheduleWord(key, i - KEY_WORDS), ScheduleCore(i, ScheduleWord(key, i - 1)))
  {
  }

  ghost predicate Scheduled(key: seq<octet>, w: seq<word>, n: nat)
    requires |key| == 32 && n <= |w|
  {
    forall j :: 0 <= j < n ==> WordScheduled(key, w, j)
  }

  ghost predicate WordScheduled(key: seq<octet>, w: seq<word>, j: nat)
    requires |key| == 32 && j < |w|
  {
    w[j] == ScheduleWord(key, j)
  }

  /** The next word from the two it depends on. */
  method NextWord(i: nat, before: word, previous: word, ghost key: seq<octet>) returns (next: word)
    requires |key| == 32 && KEY_WORDS <= i < SCHEDULE_WORDS
    requires before == ScheduleWord(key, i - KEY_WORDS) && previous == ScheduleWord(key, i - 1)
    ensures next == ScheduleWord(key, i)
  {
    ScheduleUnfold(key, i);
    var temp := TransformWord(i, previous);
    next := before ^ temp;
  }

  /** The body of the second loop of expandKey. */
  method ExtendKey(w: array<word>, i: nat, ghost key: seq<octet>)
    requires |key| == 32 && w.Length == SCHEDULE_WORDS && KEY_WORDS <= i < SCHEDULE_WORDS && Scheduled(key, w[..], i)
    modifies w
    ensures Scheduled(key, w[..], i + 1)
  {
    assert WordScheduled(key, w[..], i - 1) && WordScheduled(key, w[..], i - KEY_WORDS);
    var next := NextWord(i, w[i - KEY_WORDS], w[i - 1], key);
    ghost var before := w[..];
    w[i] := next;
    forall j | 0 <= j < i + 1
      ensures WordScheduled(key, w[..], j)
    {
      assert j < i ==> WordScheduled(key, before, j);
    }
  }

  /** expandKey. */
  method ExpandKey(key: seq<octet>) returns (w: array<word>)
    requires |key| == 32
    ensures fresh(w) && w.Length == SCHEDULE_WORDS
    ensures forall i :: 0 <= i < SCHEDULE_WORDS ==> w[i] == ScheduleWord(key, i)
    ensures KeysOf(w[..]) == KeySchedule(key)
  {
    w := new word[SCHEDULE_WORDS];
    LoadKey(key, w);
    forall j | 0 <= j < KEY_WORDS
      ensures w[j] == ScheduleWord(key, j)
    {
      ScheduleUnfold(key, j);
    }
    for i := KEY_WORDS to SCHEDULE_WORDS
      invariant Scheduled(key, w[..], i)
    {
      ExtendKey(w, i, key);
    }
    forall i | 0 <= i < SCHEDULE_WORDS
      ensures w[i] == ScheduleWord(key, i)
    {
      assert WordScheduled(key, w[..], i);
    }
    assert w[..] == seq(SCHEDULE_WORDS, i requires 0 <= i < SCHEDULE_WORDS => ScheduleWord(key, i));
  }

  lemma XorCancels(a: word, b: word, c: word)
    requires XorWords(a, c) == XorWords(b, c)
    ensures a == b
  {
    assert (a ^ c) ^ c == a && (b ^ c) ^ c == b;
  }

  /** Eight consecutive words determine the word before them. */
  lemma StepBack(core: (nat, word) -> word, first: seq<word>, first': seq<word>, j: nat)
    requires |first| == KEY_WORDS && |first'| == KEY_WORDS && j > 0
    requires forall k :: j <= k < j + KEY_WORDS ==> Expand(core, first, k) == Expand(core, first', k)
    ensures Expand(core, first, j - 1) == Expand(core, first', j - 1)
  {
    var last := j + KEY_WORDS - 1;
    assert Expand(core, first, last) == Expand(core, first', last);
    XorCancels(Expand(core, first, j - 1), Expand(core, first', j - 1), core(last, Expand(core, first, last - 1)));
  }

  /** Any eight consecutive words determine the first eight. */
  lemma {:induction false} WindowDetermines(core: (nat, word) -> word, first: seq<word>, first': seq<word>, j: nat)
    requires |first| == KEY_WORDS && |first'| == KEY_WORDS
    requires forall k :: j <= k < j + KEY_WORDS ==> Expand(core, first, k) == Expand(core, first', k)
    ensures first == first'
    decreases j
  {
    if j == 0 {
      forall k | 0 <= k < KEY_WORDS
        ensures first[k] == first'[k]
      {
        assert Expand(core, first, k) == first[k];
      }
    } else {
      StepBack(core, first, first', j);
      WindowDetermines(core, first, first', j - 1);
    }
  }

  /** Any eight consecutive words of the expanded key determine the key. */
  lemma ScheduleInjective(key: seq<octet>, key': seq<octet>, j: nat)
    requires |key| == 32 && |key'| == 32
    requires forall k :: j <= k < j + KEY_WORDS ==> ScheduleWord(key, k) == ScheduleWord(key', k)
    ensures key == key'
  {
    forall k | j <= k < j + KEY_WORDS
      ensures Expand(ScheduleCore, KeyWords(key), k) == Expand(ScheduleCore, KeyWords(key'), k)
    {
      assert ScheduleWord(key, k) == ScheduleWord(key', k);
    }
    WindowDetermines(ScheduleCore, KeyWords(key), KeyWords(key'), j);
    SameKeyWords(key, key');
  }

  lemma SameKeyWords(key: seq<octet>, key': seq<octet>)
    requires |key| == 32 && |key'| == 32 && KeyWords(key) == KeyWords(key')
    ensures key == key'
  {
    forall q | 0 <= q < KEY_WORDS
      ensures key[q * 4] == key'[q * 4] && key[q * 4 + 1] == key'[q * 4 + 1]
      ensures key[q * 4 + 2] == key'[q * 4 + 2] && key[q * 4 + 3] == key'[q * 4 + 3]
    {
      assert KeyWords(key)[q] == KeyWords(key')[q];
      PackOctets(key[q * 4], key[q * 4 + 1], key[q * 4 + 2], key[q * 4 + 3]);
      PackOctets(key'[q * 4], key'[q * 4 + 1], key'[q * 4 + 2], key'[q * 4 + 3]);
    }
    forall i | 0 <= i < 32
      ensures key[i] == key'[i]
    {
      var q := i / 4;
      assert i == q * 4 || i == q * 4 + 1 || i == q * 4 + 2 || i == q * 4 + 3;
    }
  }
}
