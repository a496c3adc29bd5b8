/** String operations applied to post and comment bodies: the character
    filter of the cleaning step, splitting on a single space, dollar-sign
    removal, and matching body tokens against the ticker vocabulary. */
module Text {
  import opened Collections

  /** ASCII stand-in for the regex class \w: letters, digits and underscore
      (the class \d is contained in it). */
  predicate IsWordChar(c: char) {
    ('a' <= c <= 'z') || ('A' <= c <= 'Z') || ('0' <= c <= '9') || c == '_'
  }

  /** ASCII stand-in for the regex class \s: tab, line feed, vertical tab,
      form feed, carriage return, the separators 0x1C-0x1F, and space. */
  predicate IsSpace(c: char) {
    (9 <= c as int <= 13) || (28 <= c as int <= 32)
  }

  /** The characters the pattern [^\w\d\s\$]+ does not match. */
  predicate Keep(c: char) {
    IsWordChar(c) || IsSpace(c) || c == '$'
  }

  /** The body with every run of characters outside [\w\d\s$] deleted. */
  function Clean(s: string): (r: string)
    ensures forall i | 0 <= i < |r| :: Keep(r[i])
  {
    Filter(s, Keep)
  }

  /** Cleaning works character by character: a kept character stays, any
      other is deleted, and the pieces of a string are cleaned independently. */
  lemma CleanByCharacter(a: string, b: string, c: char)
    ensures Clean(a + b) == Clean(a) + Clean(b)
    ensures Clean([c]) == if Keep(c) then [c] else []
  {
    FilterConcat(a, b, Keep);
    assert [c][..0] == [];
  }

  /** Every kept character survives cleaning, as often as it occurred, in order. */
  lemma CleanKeepsAllowed(s: string, c: char)
    ensures IsSubseq(Clean(s), s)
    ensures multiset(Clean(s))[c] == if Keep(c) then multiset(s)[c] else 0
  {
    FilterIsSubseq(s, Keep);
    FilterCount(s, Keep, c);
  }

  lemma CleanIdempotent(s: string)
    ensures Clean(Clean(s)) == Clean(s)
  {
    FilterAll(Clean(s), Keep);
  }

  predicate NotDollar(c: char) { c != '$' }

  /** The string with every dollar sign deleted: every other character stays,
      as often as it occurred, in order. */
  function RemoveDollar(s: string): (r: string)
    ensures '$' !in r
    ensures IsSubseq(r, s)
    ensures forall c | c != '$' :: multiset(r)[c] == multiset(s)[c]
  {
    FilterFacts(s, NotDollar);
    Filter(s, NotDollar)
  }

  /** Removing dollar signs maps both spellings of a symbol to the bare one. */
  lemma RemoveDollarVariant(t: string)
    requires '$' !in t
    ensures RemoveDollar(t) == t
    ensures RemoveDollar("$" + t) == t
  {
    FilterAll(t, NotDollar);
    FilterConcat("$", t, NotDollar);
    assert "$"[..0] == [];
  }

  /** `s.split(" ")`: the pieces between single spaces, a separator at either
      end or two in a row giving an empty piece; never an empty list. */
  function Split(s: string): (r: seq<string>)
    ensures |r| >= 1
    ensures forall i | 0 <= i < |r| :: ' ' !in r[i]
    decreases |s|
  {
    if s == [] then [""]
    else
      var rest := Split(s[1..]);
      if s[0] == ' ' then [""] + rest else [[s[0]] + rest[0]] + rest[1..]
  }

  /** `" ".join(tokens)`. */
  function Join(tokens: seq<string>): string
    requires |tokens| >= 1
    decreases |tokens|
  {
    if |tokens| == 1 then tokens[0] else tokens[0] + " " + Join(tokens[1..])
  }

  /** Splitting loses nothing: joining the pieces with spaces gives the text back. */
  lemma {:induction false} JoinSplit(s: string)
    ensures Join(Split(s)) == s
    decreases |s|
  {
    if s != [] {
      JoinSplit(s[1..]);
      var rest := Split(s[1..]);
      if s[0] == ' ' {
        assert ([""] + rest)[1..] == rest;
      } else {
        var r := [[s[0]] + rest[0]] + rest[1..];
        assert r[1..] == rest[1..];
        if |rest| > 1 {
          assert rest == [rest[0]] + rest[1..];
        }
      }
      assert s == [s[0]] + s[1..];
    }
  }

  /** Splitting a space-joined list of space-free tokens gives the tokens back. */
  lemma {:induction false} SplitJoin(tokens: seq<string>)
    requires |tokens| >= 1
    requires forall i | 0 <= i < |tokens| :: ' ' !in tokens[i]
    ensures Split(Join(tokens)) == tokens
    decreases |tokens|, |tokens[0]|
  {
    var t := tokens[0];
    if t == [] {
      if |tokens| > 1 {
        SplitJoin(tokens[1..]);
        assert Join(tokens) == " " + Join(tokens[1..]);
        assert (" " + Join(tokens[1..]))[1..] == Join(tokens[1..]);
        assert tokens == [""] + tokens[1..];
      }
    } else {
      var tokens' := [t[1..]] + tokens[1..];
      assert tokens'[1..] == tokens[1..];
      SplitJoin(tokens');
      assert Join(tokens) == [t[0]] + Join(tokens');
      assert ([t[0]] + Join(tokens'))[1..] == Join(tokens');
      assert t == [t[0]] + t[1..];
      assert tokens == [t] + tokens[1..];
    }
  }

  /** `list(set(text.split(" ")).intersection(tickers))`, the set listed in
      first-occurrence order of the tokens. */
  function TickersInText(text: string, tickers: seq<string>): (r: seq<string>)
    ensures NoDuplicates(r)
    ensures forall t :: t in r <==> t in Split(text) && t in tickers
  {
    var tokens := Distinct(Split(text));
    FilterNoDuplicates(tokens, t => t in tickers);
    Filter(tokens, t => t in tickers)
  }
}
