/**
 * quiz_utils.py: the keyboard labels, the answer normaliser used to judge a
 * reply, and the corpus loader that turns the captured question/answer groups
 * of every question file into one list.
 */
module QuizUtils {
  import opened Text

  // ---------------------------------------------------------------------------
  // Keyboard buttons

  datatype Button = NewQuestion | GiveUp | MyScore

  /** The label each button sends back as the message text. */
  function Label(b: Button): (r: string)
    ensures r != [] && Trimmed(r)
  {
    match b
    case NewQuestion => "Новый вопрос"
    case GiveUp => "Сдаться"
    case MyScore => "Мой счёт"
  }

  /** No two buttons share a label, so the dispatcher can tell them apart. */
  lemma LabelsDistinct(a: Button, b: Button)
    ensures Label(a) == Label(b) ==> a == b
  {
  }

  // ---------------------------------------------------------------------------
  // Answer normaliser

  /** The characters `ANSWER_RE` refuses: an explanation starts at either one. */
  predicate IsDelimiter(c: char) {
    c == '.' || c == '('
  }

  predicate NotDelimiter(c: char) {
    !IsDelimiter(c)
  }

  /** Index of the first `.` or `(` in `s`, or |s| when there is none. */
  function FirstDelimiter(s: string): (k: nat)
    ensures k <= |s|
    ensures forall i | 0 <= i < k :: !IsDelimiter(s[i])
    ensures k < |s| ==> IsDelimiter(s[k])
  {
    if s == [] || IsDelimiter(s[0]) then 0 else 1 + FirstDelimiter(s[1..])
  }

  /**
   * `strip_explanation`: `ANSWER_RE.match` takes the non-empty run before the
   * first `.` or `(`; when the text starts with one of them there is no match
   * and the whole text is kept.  Either way the result is stripped.
   */
  function StripExplanation(text: string): (r: string)
    ensures text == [] ==> r == []
    ensures Trimmed(r)
    ensures text != [] && !IsDelimiter(text[0]) ==> All(r, NotDelimiter)
    ensures text != [] && IsDelimiter(text[0]) ==> r != [] && r[0] == text[0]
  {
    if text == [] then ""
    else if IsDelimiter(text[0]) then
      TrimIsInfix(text);
      assert LeadingSpaces(text) == 0;
      Trim(text)
    else
      var k := FirstDelimiter(text);
      TrimIsInfix(text[..k]);
      Trim(text[..k])
  }

  /**
   * Without a leading delimiter the answer is the stripped longest prefix that
   * holds neither `.` nor `(`: any such maximal prefix gives the same result.
   */
  lemma StripKeepsLongestPrefix(text: string, k: nat)
    requires text != [] && !IsDelimiter(text[0])
    requires k <= |text|
    requires forall i | 0 <= i < k :: !IsDelimiter(text[i])
    requires k < |text| ==> IsDelimiter(text[k])
    ensures StripExplanation(text) == Trim(text[..k])
  {
  }

  /** With a leading delimiter, `ANSWER_RE` does not match and the whole text is stripped. */
  lemma StripKeepsAllAfterLeadingDelimiter(text: string)
    requires text != [] && IsDelimiter(text[0])
    ensures StripExplanation(text) == Trim(text)
  {
  }

  /** `c` is already lower case: `Lower` leaves it alone. */
  predicate LowerFixed(c: char) {
    Lower(c) == c
  }

  /** `normalize_text`: lower-case, strip, and collapse each whitespace run to one space. */
  function Normalize(text: string): (r: string)
    ensures text == [] ==> r == []
    ensures NormalForm(r)
    ensures All(r, LowerFixed)
  {
    if text == [] then ""
    else
      var lowered := LowerAll(text);
      assert All(lowered, LowerFixed) by {
        forall i | 0 <= i < |lowered| ensures LowerFixed(lowered[i]) {
          LowerIdempotent(text[i]);
        }
      }
      TrimIsInfix(lowered);
      CollapseKeeps(Trim(lowered), LowerFixed);
      Collapse(Trim(lowered))
  }

  /** A lower-case string is its own lower case. */
  lemma LowerAllOfLower(s: string)
    requires All(s, LowerFixed)
    ensures LowerAll(s) == s
  {
  }

  /** Normalising twice is normalising once. */
  lemma NormalizeIdempotent(text: string)
    ensures Normalize(Normalize(text)) == Normalize(text)
  {
    var n := Normalize(text);
    if n != [] {
      LowerAllOfLower(n);
      TrimOfTrimmed(n);
      JoinOfWords(n);
    }
  }

  /** The comparison `handle_solution_attempt` makes between a reply and the stored answer. */
  predicate SameAnswer(reply: string, stored: string) {
    Normalize(StripExplanation(reply)) == Normalize(StripExplanation(stored))
  }

  /** Normalising is joining, with single spaces, the words of the lower-cased text. */
  lemma NormalizeIsJoinOfWords(text: string)
    ensures Normalize(text) == Join(Words(LowerAll(text)))
  {
    if text == [] {
      assert LowerAll(text) == [];
      assert TrimLeft("") == "";
    } else {
      WordsOfTrim(LowerAll(text));
    }
  }

  /** Normalising keeps exactly the words of the lower-cased text, in order. */
  lemma NormalizeKeepsWords(text: string)
    ensures Words(Normalize(text)) == Words(LowerAll(text))
  {
    NormalizeIsJoinOfWords(text);
    WordsOfJoin(Words(LowerAll(text)));
  }

  /**
   * A reply is accepted exactly when, once both sides lose their explanation and are
   * lower-cased, it splits into the same words as the stored answer.
   */
  lemma SameAnswerIff(reply: string, stored: string)
    ensures SameAnswer(reply, stored) <==>
            Words(LowerAll(StripExplanation(reply))) == Words(LowerAll(StripExplanation(stored)))
  {
    var a := StripExplanation(reply);
    var b := StripExplanation(stored);
    NormalizeKeepsWords(a);
    NormalizeKeepsWords(b);
    NormalizeIsJoinOfWords(a);
    NormalizeIsJoinOfWords(b);
  }

  /** `' '.join(s.split())` starts with the first character of `s` when that is not whitespace. */
  lemma CollapseHead(s: string)
    requires s != [] && !IsSpace(s[0])
    ensures Collapse(s) != [] && Collapse(s)[0] == s[0]
  {
    assert TrimLeft(s) == s;
    var k := WordEnd(s);
    var ws := Words(s);
    assert ws[0] == s[..k];
    if |ws| > 1 {
      assert Join(ws) == ws[0] + " " + Join(ws[1..]);
    }
  }

  /** Lower-casing maps delimiters to themselves and nothing else to a delimiter. */
  lemma LowerKeepsDelimiters(c: char)
    ensures IsDelimiter(Lower(c)) == IsDelimiter(c)
  {
  }

  /** Normalising keeps a string free of delimiters. */
  lemma NormalizeAddsNoDelimiter(p: string)
    requires All(p, NotDelimiter)
    ensures All(Normalize(p), NotDelimiter)
  {
    if p != [] {
      var lowered := LowerAll(p);
      TrimIsInfix(lowered);
      var a, t := LeadingSpaces(lowered), Trim(lowered);
      forall i | 0 <= i < |t| ensures NotDelimiter(t[i]) {
        assert t[i] == lowered[a + i];
        LowerKeepsDelimiters(p[a + i]);
      }
      CollapseKeeps(t, NotDelimiter);
    }
  }

  /** Normalising a string that starts with a non-space keeps that character, lower-cased. */
  lemma NormalizeHead(p: string)
    requires p != [] && !IsSpace(p[0])
    ensures Normalize(p) != [] && Normalize(p)[0] == Lower(p[0])
  {
    var lowered := LowerAll(p);
    LowerIdempotent(p[0]);
    TrimIsInfix(lowered);
    assert LeadingSpaces(lowered) == 0;
    var t := Trim(lowered);
    assert t[0] == lowered[0];
    CollapseHead(t);
  }

  /** An already stripped answer with no delimiter in it is its own stripped form. */
  lemma StripWithoutDelimiter(n: string)
    requires Trimmed(n) && All(n, NotDelimiter)
    ensures StripExplanation(n) == n
  {
    if n != [] {
      assert FirstDelimiter(n) == |n|;
      assert n[..|n|] == n;
      TrimOfTrimmed(n);
    }
  }

  /**
   * Typing back the canonical form of an answer is judged correct: the
   * normaliser is stable on its own output, explanation stripping included.
   */
  lemma CanonicalReplyAccepted(answer: string)
    ensures SameAnswer(Normalize(StripExplanation(answer)), answer)
  {
    var p := StripExplanation(answer);
    var n := Normalize(p);
    NormalizeIdempotent(p);
    if n != [] {
      if IsDelimiter(answer[0]) {
        NormalizeHead(p);
        LowerKeepsDelimiters(p[0]);
        TrimOfTrimmed(n);
        assert StripExplanation(n) == n;
      } else {
        NormalizeAddsNoDelimiter(p);
        StripWithoutDelimiter(n);
      }
    }
  }

  // ---------------------------------------------------------------------------
  // Corpus loader

  /** The two groups `PATTERN` captures for one block: question text and answer text. */
  type RawPair = (string, string)

  datatype QuestionAnswer = QuestionAnswer(question: string, answer: string)

  /** A question file: either its text decodes and yields the captured groups, or it does not. */
  datatype SourceFile = Decoded(matches: seq<RawPair>) | DecodeError

  datatype CorpusFile = CorpusFile(name: string, content: SourceFile)

  /** One captured block with both groups whitespace-collapsed; the words themselves are kept. */
  function CollapsePair(raw: RawPair): (qa: QuestionAnswer)
    ensures NormalForm(qa.question) && NormalForm(qa.answer)
  {
    QuestionAnswer(Collapse(raw.0), Collapse(raw.1))
  }

  /** Collapsing a pair loses no word of the question or the answer and reorders none. */
  lemma CollapsePairKeepsWords(raw: RawPair)
    ensures Words(CollapsePair(raw).question) == Words(raw.0)
    ensures Words(CollapsePair(raw).answer) == Words(raw.1)
  {
    CollapseKeepsWords(raw.0);
    CollapseKeepsWords(raw.1);
  }

  /** `load_file` after decoding: one pair per match, in match order. */
  method LoadFile(matches: seq<RawPair>) returns (pairs: seq<QuestionAnswer>)
    ensures |pairs| == |matches|
    ensures forall i | 0 <= i < |matches| :: pairs[i] == CollapsePair(matches[i])
  {
    pairs := [];
    for i := 0 to |matches|
      invariant |pairs| == i
      invariant forall j | 0 <= j < i :: pairs[j] == CollapsePair(matches[j])
    {
      pairs := pairs + [CollapsePair(matches[i])];
    }
  }

  /** What `load_file` returns for a decoded file is its share of the corpus. */
  lemma LoadedPairs(m: seq<RawPair>, pairs: seq<QuestionAnswer>)
    requires |pairs| == |m|
    requires forall i | 0 <= i < |m| :: pairs[i] == CollapsePair(m[i])
    ensures pairs == FilePairs(Decoded(m))
  {
  }

  /** What one file adds to the corpus: nothing when it fails to decode. */
  function FilePairs(f: SourceFile): seq<QuestionAnswer> {
    match f
    case DecodeError => []
    case Decoded(m) => seq(|m|, i requires 0 <= i < |m| => CollapsePair(m[i]))
  }

  /** The pairs of `files`, file after file. */
  function Corpus(files: seq<CorpusFile>): seq<QuestionAnswer> {
    if files == [] then [] else FilePairs(files[0].content) + Corpus(files[1..])
  }

  lemma {:induction false} CorpusAppend(a: seq<CorpusFile>, b: seq<CorpusFile>)
    ensures Corpus(a + b) == Corpus(a) + Corpus(b)
    decreases |a|
  {
    if a != [] {
      var head := FilePairs(a[0].content);
      assert (a + b)[0] == a[0] && (a + b)[1..] == a[1..] + b;
      assert Corpus(a + b) == head + Corpus(a[1..] + b);
      CorpusAppend(a[1..], b);
      assert head + (Corpus(a[1..]) + Corpus(b)) == (head + Corpus(a[1..])) + Corpus(b);
    } else {
      assert a + b == b;
    }
  }

  /** Scanning one more file appends exactly what that file contributes. */
  lemma CorpusSnoc(fs: seq<CorpusFile>, f: CorpusFile)
    ensures Corpus(fs + [f]) == Corpus(fs) + FilePairs(f.content)
  {
    CorpusAppend(fs, [f]);
    assert [f][1..] == [];
    assert Corpus([f]) == FilePairs(f.content) + [];
  }

  /** A file that fails to decode contributes nothing, wherever it sits in the scan. */
  lemma CorpusSkipsUndecodable(before: seq<CorpusFile>, name: string, after: seq<CorpusFile>)
    ensures Corpus(before + [CorpusFile(name, DecodeError)] + after) == Corpus(before + after)
  {
    var bad := [CorpusFile(name, DecodeError)];
    assert Corpus(bad) == [] by {
      assert bad[1..] == [];
    }
    CorpusAppend(before + bad, after);
    CorpusAppend(before, bad);
    CorpusAppend(before, after);
    assert Corpus(before) + [] == Corpus(before);
  }

  /** Python's `<=` on file names: code-point lexicographic order. */
  predicate NameLe(a: string, b: string)
    decreases |a|
  {
    a == [] || (b != [] && (a[0] < b[0] || (a[0] == b[0] && NameLe(a[1..], b[1..]))))
  }

  lemma {:induction false} NameLeTotal(a: string, b: string)
    ensures NameLe(a, b) || NameLe(b, a)
    decreases |a|
  {
    if a != [] && b != [] && a[0] == b[0] {
      NameLeTotal(a[1..], b[1..]);
    }
  }

  lemma {:induction false} NameLeTransitive(a: string, b: string, c: string)
    requires NameLe(a, b) && NameLe(b, c)
    ensures NameLe(a, c)
    decreases |a|
  {
    if a != [] && a[0] == b[0] && b[0] == c[0] {
      NameLeTransitive(a[1..], b[1..], c[1..]);
    }
  }

  predicate SortedByName(fs: seq<CorpusFile>) {
    forall i, j | 0 <= i < j < |fs| :: NameLe(fs[i].name, fs[j].name)
  }

  /** Inserts `f` into a sorted listing in front of the first name it does not exceed. */
  function Insert(f: CorpusFile, fs: seq<CorpusFile>): (r: seq<CorpusFile>)
    ensures multiset(r) == multiset(fs) + multiset{f}
  {
    if fs == [] || NameLe(f.name, fs[0].name) then [f] + fs
    else
      assert fs == [fs[0]] + fs[1..];
      [fs[0]] + Insert(f, fs[1..])
  }

  /** Insertion into a sorted listing keeps it sorted. */
  lemma {:induction false} InsertKeepsSorted(f: CorpusFile, fs: seq<CorpusFile>)
    requires SortedByName(fs)
    ensures SortedByName(Insert(f, fs))
    decreases |fs|
  {
    if fs == [] || NameLe(f.name, fs[0].name) {
      forall m | 0 < m < |fs| ensures NameLe(f.name, fs[m].name) {
        NameLeTransitive(f.name, fs[0].name, fs[m].name);
      }
    } else {
      var rest := Insert(f, fs[1..]);
      InsertKeepsSorted(f, fs[1..]);
      NameLeTotal(f.name, fs[0].name);
      forall j | 0 <= j < |rest| ensures NameLe(fs[0].name, rest[j].name) {
        assert rest[j] in multiset(rest);
        if rest[j] != f {
          assert rest[j] in multiset(fs[1..]);
          var m :| 0 <= m < |fs[1..]| && fs[1..][m] == rest[j];
          assert fs[m + 1] == rest[j];
        }
      }
    }
  }

  /** `sorted(...)` over the listing, by file name. */
  function SortByName(fs: seq<CorpusFile>): (r: seq<CorpusFile>)
    ensures SortedByName(r)
    ensures multiset(r) == multiset(fs)
  {
    if fs == [] then []
    else
      assert fs == [fs[0]] + fs[1..];
      InsertKeepsSorted(fs[0], SortByName(fs[1..]));
      Insert(fs[0], SortByName(fs[1..]))
  }

  lemma {:induction false} NameLeAntisymmetric(a: string, b: string)
    requires NameLe(a, b) && NameLe(b, a)
    ensures a == b
    decreases |a|
  {
    if a != [] {
      NameLeAntisymmetric(a[1..], b[1..]);
      assert a == [a[0]] + a[1..] && b == [b[0]] + b[1..];
    }
  }

  lemma {:induction false} NameLeReflexive(a: string)
    ensures NameLe(a, a)
    decreases |a|
  {
    if a != [] {
      NameLeReflexive(a[1..]);
    }
  }

  /** No two entries of a directory listing share a name. */
  predicate NamesDistinct(fs: seq<CorpusFile>) {
    forall i, j | 0 <= i < j < |fs| :: fs[i].name != fs[j].name
  }

  /** Two sorted permutations of distinctly named files start with the same file. */
  lemma SortedHeadsAgree(a: seq<CorpusFile>, b: seq<CorpusFile>)
    requires SortedByName(a) && SortedByName(b) && NamesDistinct(a)
    requires multiset(a) == multiset(b)
    requires a != [] && b != []
    ensures a[0] == b[0]
  {
    assert b[0] in multiset(a) && a[0] in multiset(b);
    var j :| 0 <= j < |a| && a[j] == b[0];
    var k :| 0 <= k < |b| && b[k] == a[0];
    NameLeReflexive(a[0].name);
    NameLeReflexive(b[0].name);
    assert NameLe(a[0].name, a[j].name);
    assert NameLe(b[0].name, b[k].name);
    NameLeAntisymmetric(a[0].name, b[0].name);
  }

  /** Removing the same first element from two permutations leaves permutations. */
  lemma TailsPermute(a: seq<CorpusFile>, b: seq<CorpusFile>)
    requires multiset(a) == multiset(b)
    requires a != [] && b != [] && a[0] == b[0]
    ensures multiset(a[1..]) == multiset(b[1..])
  {
    assert a == [a[0]] + a[1..] && b == [b[0]] + b[1..];
    assert multiset(a) == multiset{a[0]} + multiset(a[1..]);
    assert multiset(b) == multiset{a[0]} + multiset(b[1..]);
    assert multiset(a[1..]) == multiset(a) - multiset{a[0]};
    assert multiset(b[1..]) == multiset(b) - multiset{a[0]};
  }

  /** Among distinctly named files there is only one sorted order. */
  lemma {:induction false} SortedIsUnique(a: seq<CorpusFile>, b: seq<CorpusFile>)
    requires SortedByName(a) && SortedByName(b) && NamesDistinct(a)
    requires multiset(a) == multiset(b)
    ensures a == b
    decreases |a|
  {
    assert |a| == |multiset(a)| == |multiset(b)| == |b|;
    if a != [] {
      SortedHeadsAgree(a, b);
      TailsPermute(a, b);
      SortedIsUnique(a[1..], b[1..]);
      assert a == [a[0]] + a[1..] && b == [b[0]] + b[1..];
    }
  }

  /**
   * `load_all_questions` does not depend on the order in which `glob` lists
   * the files: any two listings of the same distinctly named files give the
   * same corpus.
   */
  lemma ListingOrderIrrelevant(a: seq<CorpusFile>, b: seq<CorpusFile>)
    requires NamesDistinct(SortByName(a))
    requires multiset(a) == multiset(b)
    ensures AllQuestions(a) == AllQuestions(b)
  {
    SortedIsUnique(SortByName(a), SortByName(b));
  }

  /** One more file of the listing extends the corpus by that file's pairs. */
  lemma CorpusPrefixStep(fs: seq<CorpusFile>, i: nat)
    requires i < |fs|
    ensures Corpus(fs[..i + 1]) == Corpus(fs[..i]) + FilePairs(fs[i].content)
  {
    assert fs[..i + 1] == fs[..i] + [fs[i]];
    CorpusSnoc(fs[..i], fs[i]);
  }

  /** The corpus `load_all_questions` returns for the files `glob` lists, in whatever order. */
  function AllQuestions(listing: seq<CorpusFile>): seq<QuestionAnswer> {
    Corpus(SortByName(listing))
  }

  /**
   * `load_all_questions`: the files in sorted order, each one's pairs appended
   * in turn; a file that raises `UnicodeDecodeError` is passed over.
   */
  method LoadAllQuestions(listing: seq<CorpusFile>) returns (result: seq<QuestionAnswer>)
    ensures result == AllQuestions(listing)
  {
    var paths := SortByName(listing);
    result := [];
    for i := 0 to |paths|
      invariant result == Corpus(paths[..i])
    {
      match paths[i].content {
        case DecodeError =>
        case Decoded(m) =>
          var pairs := LoadFile(m);
          LoadedPairs(m, pairs);
          result := result + pairs;
      }
      CorpusPrefixStep(paths, i);
    }
    assert paths[..|paths|] == paths;
  }
}
