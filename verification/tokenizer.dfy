/**
 * The NMEA tokenizer (gps/gps.c, nmea_tokenizer_init and nmea_tokenizer_get).
 * A line loses an optional leading '$', a trailing "\n" (with an optional
 * '\r' before it) and a trailing "*hh" checksum, which is dropped and never
 * checked; the rest is cut at commas, empty fields are dropped and at most
 * MAX_NMEA_TOKENS fields are kept. As in the C code, positions are indices
 * into the whole line (the two pointers p and end); a token is modelled by
 * its characters, and the empty token stands for the static "" that an
 * out-of-range index gets.
 */
module Tokenizer {

  const MAX_NMEA_TOKENS := 16

  type Token = seq<char>

  /** Where the body starts: after the optional leading '$'. */
  function Start(line: seq<char>): (p: nat)
    ensures p <= |line|
  {
    if |line| > 0 && line[0] == '$' then 1 else 0
  }

  /** Where the body ends once a trailing "\n", and then a '\r' before it, are cut off. */
  function LineEnd(line: seq<char>): (e: nat)
    ensures Start(line) <= e <= |line|
  {
    var p, end := Start(line), |line|;
    if end > p && line[end - 1] == '\n' then
      if end - 1 > p && line[end - 2] == '\r' then end - 2 else end - 1
    else end
  }

  /** Where the body ends once the "*hh" checksum is cut off as well. */
  function End(line: seq<char>): (e: nat)
    ensures Start(line) <= e <= |line|
  {
    var p, end := Start(line), LineEnd(line);
    if end >= p + 3 && line[end - 3] == '*' then end - 3 else end
  }

  /** What is left of a line to be cut into fields. */
  function Body(line: seq<char>): seq<char> {
    line[Start(line)..End(line)]
  }

  /** Where memchr finds the first comma in s[i..end], or end if there is none. */
  function CommaFrom(s: seq<char>, i: nat, end: nat): (k: nat)
    requires i <= end <= |s|
    ensures i <= k <= end
    decreases end - i
  {
    if i == end || s[i] == ',' then i else CommaFrom(s, i + 1, end)
  }

  /** The index CommaFrom finds is the first comma, or the end when the span has none. */
  lemma {:induction false} CommaFromIsFirst(s: seq<char>, i: nat, end: nat)
    requires i <= end <= |s|
    ensures forall j :: i <= j < CommaFrom(s, i, end) ==> s[j] != ','
    ensures CommaFrom(s, i, end) < end ==> s[CommaFrom(s, i, end)] == ','
    decreases end - i
  {
    if i < end && s[i] != ',' {
      CommaFromIsFirst(s, i + 1, end);
    }
  }

  /** The non-empty comma-separated pieces of s[p..end], left to right. */
  function FieldsIn(s: seq<char>, p: nat, end: nat): seq<Token>
    requires p <= end <= |s|
    decreases end - p
  {
    if p == end then []
    else
      var q := CommaFrom(s, p, end);
      (if q > p then [s[p..q]] else []) + FieldsIn(s, if q < end then q + 1 else q, end)
  }

  /** The first MAX_NMEA_TOKENS fields; later ones are not recorded. */
  function Cap(ts: seq<Token>): seq<Token> {
    if |ts| <= MAX_NMEA_TOKENS then ts else ts[..MAX_NMEA_TOKENS]
  }

  /** The tokens nmea_tokenizer_init records for a line. */
  function Tokens(line: seq<char>): seq<Token> {
    Cap(FieldsIn(line, Start(line), End(line)))
  }

  /** nmea_tokenizer_get: the token at an index, or the empty token outside the recorded range. */
  function Get(tokens: seq<Token>, index: int): (t: Token)
    ensures 0 <= index < |tokens| ==> t == tokens[index]
    ensures index < 0 || |tokens| <= index ==> t == []
  {
    if 0 <= index < |tokens| then tokens[index] else []
  }

  /** `tok.p[0]`: the first character of a token, or the NUL terminator of the empty token. */
  function FirstChar(tok: Token): char {
    if tok == [] then '\0' else tok[0]
  }

  /** Fields joined back with single commas. */
  function Join(fs: seq<Token>): seq<char> {
    if fs == [] then []
    else if |fs| == 1 then fs[0]
    else fs[0] + [','] + Join(fs[1..])
  }

  predicate WellFormedField(f: Token) {
    f != [] && ',' !in f
  }

  /**
   * The trimming half of nmea_tokenizer_init: p skips a leading '$', end
   * backs over "\n", then "\r", then a "*hh" checksum.
   */
  method TrimLine(line: seq<char>) returns (p: nat, end: nat)
    ensures p == Start(line) && end == End(line)
  {
    p, end := 0, |line|;
    if p < end && line[0] == '$' {
      p := p + 1;
    }
    if end > p && line[end - 1] == '\n' {
      end := end - 1;
      if end > p && line[end - 1] == '\r' {
        end := end - 1;
      }
    }
    if end >= p + 3 && line[end - 3] == '*' {
      end := end - 3;
    }
  }

  /**
   * nmea_tokenizer_init: trims the line by moving the two pointers, then
   * walks the body one field at a time.
   */
  method Tokenize(line: seq<char>) returns (tokens: seq<Token>)
    ensures tokens == Tokens(line)
    ensures |tokens| <= MAX_NMEA_TOKENS
    ensures forall i :: 0 <= i < |tokens| ==> WellFormedField(tokens[i])
  {
    var p, end := TrimLine(line);
    tokens := [];
    while p < end
      invariant 0 <= p <= end <= |line|
      invariant |tokens| <= MAX_NMEA_TOKENS
      invariant Cap(tokens + FieldsIn(line, p, end)) == Tokens(line)
      decreases end - p
    {
      var q := CommaFrom(line, p, end);
      var next := if q < end then q + 1 else q;
      ghost var before := tokens;
      if q > p && |tokens| < MAX_NMEA_TOKENS {
        tokens := tokens + [line[p..q]];
      }
      TokenizeStep(line, before, tokens, p, q, next, end);
      p := next;
    }
    TokenizeDone(line, tokens, p);
  }

  /** Once the walk reaches the end of the body, the recorded tokens are the line's tokens. */
  lemma TokenizeDone(line: seq<char>, tokens: seq<Token>, end: nat)
    requires end <= |line| && |tokens| <= MAX_NMEA_TOKENS
    requires Cap(tokens + FieldsIn(line, end, end)) == Tokens(line)
    ensures tokens == Tokens(line)
    ensures forall i :: 0 <= i < |tokens| ==> WellFormedField(tokens[i])
  {
    assert tokens + FieldsIn(line, end, end) == tokens;
    TokensWellFormed(line);
  }

  /**
   * One pass of the tokenizer loop: recording the piece up to the next comma
   * (when it is not empty and fewer than MAX_NMEA_TOKENS are recorded) and
   * moving past the comma keeps the capped result.
   */
  lemma TokenizeStep(line: seq<char>, tokens: seq<Token>, kept: seq<Token>, p: nat, q: nat, next: nat, end: nat)
    requires p < end <= |line| && |tokens| <= MAX_NMEA_TOKENS
    requires q == CommaFrom(line, p, end) && next == (if q < end then q + 1 else q)
    requires kept == if q > p && |tokens| < MAX_NMEA_TOKENS then tokens + [line[p..q]] else tokens
    ensures |kept| <= MAX_NMEA_TOKENS && next <= end
    ensures Cap(kept + FieldsIn(line, next, end)) == Cap(tokens + FieldsIn(line, p, end))
  {
    FieldsInStep(line, p, end);
    CapAfterField(tokens, if q > p then [line[p..q]] else [], FieldsIn(line, next, end));
  }

  /** The fields of a span: the piece up to the first comma, when not empty, then the fields after that comma. */
  lemma FieldsInStep(s: seq<char>, p: nat, end: nat)
    requires p < end <= |s|
    ensures var q := CommaFrom(s, p, end);
      FieldsIn(s, p, end) == (if q > p then [s[p..q]] else []) + FieldsIn(s, if q < end then q + 1 else q, end)
  {
  }

  /** Recording one more field, or none once MAX_NMEA_TOKENS are recorded, keeps the capped result. */
  lemma CapAfterField(tokens: seq<Token>, head: seq<Token>, rest: seq<Token>)
    requires |tokens| <= MAX_NMEA_TOKENS && |head| <= 1
    ensures var kept := if head != [] && |tokens| < MAX_NMEA_TOKENS then tokens + head else tokens;
      Cap(tokens + (head + rest)) == Cap(kept + rest)
  {
    if head != [] && |tokens| < MAX_NMEA_TOKENS {
      ConcatAssoc(tokens, head, rest);
    } else if head != [] {
      CapIgnoresTail(tokens, head + rest);
      CapIgnoresTail(tokens, rest);
    } else {
      assert head + rest == rest;
    }
  }

  lemma ConcatAssoc(a: seq<Token>, b: seq<Token>, c: seq<Token>)
    ensures a + (b + c) == (a + b) + c
  {
  }

  lemma CapIgnoresTail(a: seq<Token>, b: seq<Token>)
    requires |a| == MAX_NMEA_TOKENS
    ensures Cap(a + b) == a
  {
    assert (a + b)[..MAX_NMEA_TOKENS] == a;
  }

  /** Every field is non-empty and comma-free, and holds only characters of the text it was cut from. */
  lemma {:induction false} FieldsWellFormed(s: seq<char>, p: nat, end: nat)
    requires p <= end <= |s|
    ensures forall i :: 0 <= i < |FieldsIn(s, p, end)| ==> WellFormedField(FieldsIn(s, p, end)[i])
    ensures forall i, j :: 0 <= i < |FieldsIn(s, p, end)| && 0 <= j < |FieldsIn(s, p, end)[i]| ==>
      FieldsIn(s, p, end)[i][j] in s
    decreases end - p
  {
    if p < end {
      var q := CommaFrom(s, p, end);
      var next := if q < end then q + 1 else q;
      CommaFromIsFirst(s, p, end);
      FieldsWellFormed(s, next, end);
      var head: seq<Token> := if q > p then [s[p..q]] else [];
      var fs := FieldsIn(s, p, end);
      assert fs == head + FieldsIn(s, next, end);
      forall i | 0 <= i < |fs|
        ensures WellFormedField(fs[i])
        ensures forall j :: 0 <= j < |fs[i]| ==> fs[i][j] in s
      {
        if i < |head| {
          assert fs[i] == s[p..q];
          assert forall j :: 0 <= j < q - p ==> s[p..q][j] == s[p + j];
        } else {
          assert fs[i] == FieldsIn(s, next, end)[i - |head|];
        }
      }
    }
  }

  /** The recorded tokens: at most MAX_NMEA_TOKENS, each non-empty, comma-free and made of characters of the line. */
  lemma TokensWellFormed(line: seq<char>)
    ensures |Tokens(line)| <= MAX_NMEA_TOKENS
    ensures forall i :: 0 <= i < |Tokens(line)| ==> WellFormedField(Tokens(line)[i])
    ensures forall i, j :: 0 <= i < |Tokens(line)| && 0 <= j < |Tokens(line)[i]| ==> Tokens(line)[i][j] in line
  {
    FieldsWellFormed(line, Start(line), End(line));
  }

  /** Out of range exactly when the token is empty: the recorded tokens are never empty. */
  lemma GetEmptyIffOutOfRange(line: seq<char>, index: int)
    ensures Get(Tokens(line), index) == [] <==> !(0 <= index < |Tokens(line)|)
  {
    TokensWellFormed(line);
  }

  /**
   * On a line without NUL bytes, testing the first character of a token
   * against NUL is the same as testing that the index is below the count.
   */
  lemma FirstCharPresentIffInRange(line: seq<char>, index: int)
    requires '\0' !in line
    ensures FirstChar(Get(Tokens(line), index)) != '\0' <==> 0 <= index < |Tokens(line)|
  {
    TokensWellFormed(line);
    if 0 <= index < |Tokens(line)| {
      assert Tokens(line)[index][0] in line;
    }
  }

  lemma {:induction false} CommaFromAt(s: seq<char>, i: nat, k: nat, end: nat)
    requires i <= k <= end <= |s|
    requires forall j :: i <= j < k ==> s[j] != ','
    requires k < end ==> s[k] == ','
    ensures CommaFrom(s, i, end) == k
    decreases k - i
  {
    if i < k {
      CommaFromAt(s, i + 1, k, end);
    }
  }

  /** A comma at m splits the fields: those of s[p..end] are those of s[p..m] followed by those of s[m+1..end]. */
  lemma {:induction false} FieldsSplitAtComma(s: seq<char>, p: nat, m: nat, end: nat)
    requires p <= m < end <= |s| && s[m] == ','
    ensures FieldsIn(s, p, end) == FieldsIn(s, p, m) + FieldsIn(s, m + 1, end)
    decreases m - p
  {
    var q := CommaFrom(s, p, end);
    CommaFromIsFirst(s, p, end);
    assert q <= m;
    FieldsAtComma(s, p, q, end);
    if q < m {
      CommaFromAt(s, p, q, m);
      FieldsAtComma(s, p, q, m);
      FieldsSplitAtComma(s, q + 1, m, end);
      ConcatAssoc(if q > p then [s[p..q]] else [], FieldsIn(s, q + 1, m), FieldsIn(s, m + 1, end));
    } else if p < m {
      CommaFromAt(s, p, m, m);
      FieldsOfField(s, p, m);
    }
  }

  /** The fields of a span whose first comma is at q: the piece before it, when not empty, then the fields after it. */
  lemma FieldsAtComma(s: seq<char>, p: nat, q: nat, end: nat)
    requires p <= q < end <= |s| && CommaFrom(s, p, end) == q
    ensures FieldsIn(s, p, end) == (if q > p then [s[p..q]] else []) + FieldsIn(s, q + 1, end)
  {
  }

  /** A non-empty span without commas is one field. */
  lemma FieldsOfField(s: seq<char>, p: nat, end: nat)
    requires p < end <= |s|
    requires forall j :: p <= j < end ==> s[j] != ','
    ensures FieldsIn(s, p, end) == [s[p..end]]
  {
    CommaFromAt(s, p, end, end);
  }

  /** The fields of a list that are not empty, in order: what the tokenizer keeps of them. */
  function NonEmpty(fs: seq<Token>): (r: seq<Token>)
    ensures |r| <= |fs|
  {
    if fs == [] then [] else (if fs[0] == [] then [] else [fs[0]]) + NonEmpty(fs[1..])
  }

  lemma {:induction false} NonEmptyOfWellFormed(fs: seq<Token>)
    requires forall i :: 0 <= i < |fs| ==> WellFormedField(fs[i])
    ensures NonEmpty(fs) == fs
    decreases |fs|
  {
    if fs != [] {
      NonEmptyOfWellFormed(fs[1..]);
      assert fs == [fs[0]] + fs[1..];
    }
  }

  lemma NonEmptyCons(fs: seq<Token>)
    requires fs != []
    ensures NonEmpty(fs) == NonEmpty([fs[0]]) + NonEmpty(fs[1..])
  {
    assert [fs[0]][1..] == [];
    assert NonEmpty([fs[0]]) == (if fs[0] == [] then [] else [fs[0]]);
  }

  /** Joining comma-free fields with commas and cutting the result gives back the non-empty ones. */
  lemma {:induction false} FieldsOfJoin(s: seq<char>, p: nat, fs: seq<Token>)
    requires forall i :: 0 <= i < |fs| ==> ',' !in fs[i]
    requires p + |Join(fs)| <= |s| && s[p..p + |Join(fs)|] == Join(fs)
    ensures FieldsIn(s, p, p + |Join(fs)|) == NonEmpty(fs)
    decreases |fs|
  {
    var end := p + |Join(fs)|;
    if fs == [] {
      assert end == p;
      assert FieldsIn(s, p, end) == NonEmpty(fs);
    } else if |fs| == 1 {
      assert fs == [fs[0]] && Join(fs) == fs[0];
      FieldsOfPiece(s, p, fs[0]);
      assert FieldsIn(s, p, end) == NonEmpty(fs);
    } else {
      var m := p + |fs[0]|;
      var rest := fs[1..];
      JoinSplit(s, p, fs);
      assert forall i :: 0 <= i < |rest| ==> ',' !in rest[i] by {
        forall i | 0 <= i < |rest| ensures ',' !in rest[i] {
          assert rest[i] == fs[i + 1];
        }
      }
      FieldsOfJoin(s, m + 1, rest);
      FieldsAfterFirst(s, p, m, end, fs);
      assert FieldsIn(s, p, end) == NonEmpty(fs);
    }
  }

  /** The fields of a first comma-free field, a comma, and a span whose fields are those of the remaining ones. */
  lemma FieldsAfterFirst(s: seq<char>, p: nat, m: nat, end: nat, fs: seq<Token>)
    requires |fs| > 1 && ',' !in fs[0]
    requires p + |fs[0]| == m < end <= |s| && s[m] == ',' && s[p..m] == fs[0]
    requires FieldsIn(s, m + 1, end) == NonEmpty(fs[1..])
    ensures FieldsIn(s, p, end) == NonEmpty(fs)
  {
    FieldsSplitAtComma(s, p, m, end);
    FieldsOfPiece(s, p, fs[0]);
    NonEmptyCons(fs);
  }

  /** One comma-free piece of text gives one field, or none when it is empty. */
  lemma FieldsOfPiece(s: seq<char>, p: nat, f: Token)
    requires ',' !in f
    requires p + |f| <= |s| && s[p..p + |f|] == f
    ensures FieldsIn(s, p, p + |f|) == NonEmpty([f])
  {
    assert NonEmpty([f]) == (if f == [] then [] else [f]) + NonEmpty([]);
    if f != [] {
      assert forall j :: p <= j < p + |f| ==> s[j] == f[j - p];
      FieldsOfField(s, p, p + |f|);
    }
  }

  /** Where the joined text of two or more fields sits in s: the first field, a comma, the rest joined. */
  lemma JoinSplit(s: seq<char>, p: nat, fs: seq<Token>)
    requires |fs| > 1
    requires p + |Join(fs)| <= |s| && s[p..p + |Join(fs)|] == Join(fs)
    ensures var m := p + |fs[0]|;
      m < p + |Join(fs)| && s[m] == ',' && s[p..m] == fs[0] &&
      s[m + 1..p + |Join(fs)|] == Join(fs[1..]) && |Join(fs)| == |fs[0]| + 1 + |Join(fs[1..])|
  {
    var end := p + |Join(fs)|;
    var m := p + |fs[0]|;
    var tail := Join(fs[1..]);
    var joined := fs[0] + [','] + tail;
    assert Join(fs) == joined;
    assert s[m] == joined[m - p];
    assert s[p..m] == fs[0] by {
      assert s[p..m] == s[p..end][..|fs[0]|];
      assert joined[..|fs[0]|] == fs[0];
    }
    assert s[m + 1..end] == tail by {
      assert s[m + 1..end] == s[p..end][|fs[0]| + 1..];
      assert joined[|fs[0]| + 1..] == tail;
    }
  }

  /** A sentence as a receiver frames it: '$', the fields joined with commas, '*', a checksum and "\r\n". */
  function Sentence(fs: seq<Token>, sum: seq<char>): seq<char> {
    ['$'] + Join(fs) + ['*'] + sum + ['\r', '\n']
  }

  /**
   * The tokenizer inverts the framing of a sentence up to empty fields: it
   * gives back the first MAX_NMEA_TOKENS non-empty fields, so a blank field
   * moves every later field one index down.
   */
  lemma TokensOfSentence(fs: seq<Token>, sum: seq<char>)
    requires forall i :: 0 <= i < |fs| ==> ',' !in fs[i]
    requires |sum| == 2
    ensures Tokens(Sentence(fs, sum)) == Cap(NonEmpty(fs))
  {
    var line := Sentence(fs, sum);
    BoundsOfSentence(Join(fs), sum);
    FieldsOfJoin(line, 1, fs);
  }

  /** Trimming a framed sentence leaves exactly its comma-joined body. */
  lemma BoundsOfSentence(body: seq<char>, sum: seq<char>)
    requires |sum| == 2
    ensures var line := ['$'] + body + ['*'] + sum + ['\r', '\n'];
      Start(line) == 1 && End(line) == |body| + 1 && line[1..|body| + 1] == body
  {
    var line := ['$'] + body + ['*'] + sum + ['\r', '\n'];
    var n := |body|;
    assert line[0] == '$';
    assert line[n + 5] == '\n' && line[n + 4] == '\r' && line[n + 1] == '*';
    assert LineEnd(line) == n + 4;
    assert line[1..n + 1] == body;
  }
}
