/** Quoted strings in SIP text: strchr, __osip_quote_find, and which commas stand outside quotes. */
module QuotedText {

  /** strchr from a position: the index, or -1 for NULL. */
  function StrChr(s: string, from: nat, c: char): (r: int)
    requires from <= |s|
    ensures r == -1 || (from <= r < |s| && s[r] == c)
    ensures forall k | from <= k < (if r == -1 then |s| else r) :: s[k] != c
    decreases |s| - from
  {
    if from == |s| then -1 else if s[from] == c then from else StrChr(s, from + 1, c)
  }

  // ---- quotes and escapes, from left to right ----

  /** Whether a position is inside quotes, and whether an odd run of backslashes stands before it. */
  datatype Mode = Mode(inside: bool, escaped: bool)

  const OUTSIDE: Mode := Mode(false, false)

  function Step(m: Mode, c: char): (r: Mode)
  {
    if c == '"' && !m.escaped then Mode(!m.inside, false)
    else if c == '\\' then Mode(m.inside, !m.escaped)
    else Mode(m.inside, false)
  }

  function ModeAt(s: string, k: nat): (r: Mode)
    requires k <= |s|
  {
    if k == 0 then OUTSIDE else Step(ModeAt(s, k - 1), s[k - 1])
  }

  /** How many quotes before k have no backslash, or an even run of them, before them. */
  function QuotesUpTo(s: string, k: nat): (r: nat)
    requires k <= |s|
  {
    if k == 0 then 0
    else QuotesUpTo(s, k - 1) + if s[k - 1] == '"' && Slashes(s, 0, k - 1) % 2 == 0 then 1 else 0
  }

  /** A position is inside quotes exactly when an odd number of unescaped ones comes before it. */
  lemma {:induction false} InsideOdd(s: string, k: nat)
    requires k <= |s|
    ensures ModeAt(s, k).inside <==> QuotesUpTo(s, k) % 2 == 1
    ensures ModeAt(s, k).escaped <==> Slashes(s, 0, k) % 2 == 1
  {
    if k > 0 {
      InsideOdd(s, k - 1);
    }
  }

  predicate Paired(s: string)
  {
    !ModeAt(s, |s|).inside
  }

  /** A comma that separates. */
  predicate Separator(s: string, k: nat)
    requires k < |s|
  {
    s[k] == ',' && !ModeAt(s, k).inside
  }

  /** The next quote from a position on that is not escaped, or -1. */
  function QuoteFrom(s: string, from: nat, escaped: bool): (r: int)
    requires from <= |s|
    ensures r == -1 || (from <= r < |s| && s[r] == '"')
    decreases |s| - from
  {
    if from == |s| then -1
    else if s[from] == '"' && !escaped then from
    else QuoteFrom(s, from + 1, s[from] == '\\' && !escaped)
  }

  /** The backslashes right before j, not looking before from. */
  function Slashes(s: string, from: nat, j: nat): (r: nat)
    requires from <= j <= |s|
    ensures r <= j - from
  {
    if j == from || s[j - 1] != '\\' then 0 else 1 + Slashes(s, from, j - 1)
  }

  /** Scanning past characters that are no unescaped quote. */
  lemma {:induction false} QuoteSkips(s: string, from: nat, j: nat)
    requires from <= j <= |s|
    requires forall k | from <= k < j :: s[k] == '"' ==> Slashes(s, from, k) % 2 == 1
    ensures QuoteFrom(s, from, false) == QuoteFrom(s, j, Slashes(s, from, j) % 2 == 1)
  {
    hide QuoteFrom, Slashes;
    if j > from {
      QuoteSkips(s, from, j - 1);
      QuoteStep(s, j - 1, Slashes(s, from, j - 1) % 2 == 1);
      SlashStep(s, from, j);
    } else {
      SlashStep(s, from, j);
    }
  }

  lemma {:induction false} QuoteStep(s: string, j: nat, escaped: bool)
    requires j < |s|
    ensures QuoteFrom(s, j, escaped)
      == if s[j] == '"' && !escaped then j else QuoteFrom(s, j + 1, s[j] == '\\' && !escaped)
  {
  }

  lemma {:induction false} SlashStep(s: string, from: nat, j: nat)
    requires from <= j <= |s|
    ensures Slashes(s, from, j) == if j == from || s[j - 1] != '\\' then 0 else 1 + Slashes(s, from, j - 1)
  {
  }

  lemma {:induction false} NoQuoteFrom(s: string, from: nat, escaped: bool)
    requires from <= |s| && forall k | from <= k < |s| :: s[k] != '"'
    ensures QuoteFrom(s, from, escaped) == -1
    decreases |s| - from
  {
    if from < |s| {
      NoQuoteFrom(s, from + 1, s[from] == '\\' && !escaped);
    }
  }

  /** Every quote from a position on up to another has an odd run of backslashes before it. */
  ghost predicate QuotesEscaped(s: string, from: nat, to: nat)
    requires from <= to <= |s|
  {
    forall k | from <= k < to :: s[k] == '"' ==> Slashes(s, from, k) % 2 == 1
  }

  lemma {:induction false} QuotesSkipped(s: string, from: nat, to: nat)
    requires from <= to <= |s| && QuotesEscaped(s, from, to)
    ensures QuoteFrom(s, from, false) == QuoteFrom(s, to, Slashes(s, from, to) % 2 == 1)
  {
    QuoteSkips(s, from, to);
  }

  /** Behind an escaped quote the search goes on; there is no quote before the next one. */
  lemma {:induction false} QuotesFurther(s: string, from: nat, quote: nat, next: nat)
    requires from <= quote < next <= |s| && QuotesEscaped(s, from, quote) && Slashes(s, from, quote) % 2 == 1
    requires forall k | quote < k < next :: s[k] != '"'
    ensures QuotesEscaped(s, from, next)
  {
  }

  /** The inner loop of __osip_quote_find: one more than the backslashes before the quote, back to qstring. */
  method CountSlashes(s: string, ghost from: nat, qstring: nat, quote: nat) returns (i: nat)
    requires from <= qstring <= quote < |s| && (qstring == from || s[qstring - 1] == '"')
    ensures 1 <= i <= quote - qstring + 1 && Slashes(s, from, quote) == i - 1
  {
    hide Slashes;
    i := 1;
    while quote - i >= qstring && s[quote - i] == '\\'
      invariant 1 <= i <= quote - qstring + 1
      invariant Slashes(s, from, quote) == i - 1 + Slashes(s, from, quote - i + 1)
      decreases quote - i
    {
      SlashStep(s, from, quote - i + 1);
      i := i + 1;
    }
    SlashStep(s, from, quote - i + 1);
  }

  /** __osip_quote_find: at each quote the backslashes before it are counted backwards. */
  method QuoteFind(s: string, from: nat) returns (r: int)
    requires from <= |s|
    ensures r == QuoteFrom(s, from, false)
  {
    hide QuoteFrom, Slashes, QuotesEscaped;
    var quote := StrChr(s, from, '"');
    var qstring := from;
    FirstQuote(s, from, if quote == -1 then |s| else quote);
    while quote != -1
      invariant quote == -1 || (qstring <= quote && quote < |s| && s[quote] == '"')
      invariant from <= qstring <= |s| && (qstring == from || s[qstring - 1] == '"')
      invariant QuotesEscaped(s, from, if quote == -1 then |s| else quote)
      decreases if quote == -1 then 0 else |s| - quote
    {
      var i := CountSlashes(s, from, qstring, quote);
      QuotesSkipped(s, from, quote);
      if i % 2 == 1 {
        QuoteHere(s, quote);
        return quote;
      }
      if quote - i == qstring - 1 {
        qstring := quote + 1;
      }
      var next := StrChr(s, quote + 1, '"');
      QuotesFurther(s, from, quote, if next == -1 then |s| else next);
      quote := next;
    }
    QuotesSkipped(s, from, |s|);
    NoQuoteFrom(s, |s|, Slashes(s, from, |s|) % 2 == 1);
    return -1;
  }

  lemma {:induction false} FirstQuote(s: string, from: nat, to: nat)
    requires from <= to <= |s| && forall k | from <= k < to :: s[k] != '"'
    ensures QuotesEscaped(s, from, to)
  {
  }

  lemma {:induction false} QuoteHere(s: string, j: nat)
    requires j < |s| && s[j] == '"'
    ensures QuoteFrom(s, j, false) == j
  {
  }

  /** Up to the next unescaped quote the text stays inside or outside; behind it it is the other way round. */
  lemma {:induction false} QuoteTurns(s: string, from: nat, m: Mode)
    requires from <= |s| && ModeAt(s, from) == m
    ensures var q := QuoteFrom(s, from, m.escaped);
      && (forall k | from <= k <= (if q == -1 then |s| else q) :: ModeAt(s, k).inside == m.inside)
      && (q != -1 ==> ModeAt(s, q + 1) == Mode(!m.inside, false))
    decreases |s| - from
  {
    if from < |s| && !(s[from] == '"' && !m.escaped) {
      QuoteTurns(s, from + 1, Step(m, s[from]));
    }
  }

  /** In paired text every opening quote has its closing one. */
  lemma {:induction false} ClosingQuote(s: string, q1: nat)
    requires Paired(s) && q1 < |s| && ModeAt(s, q1 + 1) == Mode(true, false)
    ensures var q2 := QuoteFrom(s, q1 + 1, false);
      && q2 != -1 && ModeAt(s, q2 + 1) == OUTSIDE && forall k | q1 < k <= q2 :: ModeAt(s, k).inside
  {
    QuoteTurns(s, q1 + 1, Mode(true, false));
  }

  /** After a separator the text is outside again. */
  lemma {:induction false} AfterSeparator(s: string, k: nat)
    requires k < |s| && Separator(s, k)
    ensures ModeAt(s, k + 1) == OUTSIDE
  {
  }

  /** The next separator, or the end of the text. */
  function NextSeparator(s: string, from: nat): (r: nat)
    requires from <= |s|
    ensures from <= r <= |s| && (r < |s| ==> Separator(s, r))
    ensures forall k | from <= k < r :: !Separator(s, k)
    decreases |s| - from
  {
    if from == |s| || Separator(s, from) then from else NextSeparator(s, from + 1)
  }

  lemma {:induction false} SeparatorIs(s: string, from: nat, k: nat)
    requires from <= k <= |s| && (k < |s| ==> Separator(s, k))
    requires forall j | from <= j < k :: !Separator(s, j)
    ensures NextSeparator(s, from) == k
    decreases k - from
  {
    if from < k {
      SeparatorIs(s, from + 1, k);
    }
  }
}
