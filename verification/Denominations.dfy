/** Names of denominations: which texts are recognised, against what the documentation promises. */
module Denominations {
  import opened Words
  import opened AmountParse
  import opened AmountFormat

  function Forms(s: string): Option<Denomination> {
    if s == "DASH" || s == "dash" then Some(Dash)
    else if s == "cDASH" || s == "cdash" then Some(CentiDash)
    else if s == "mDASH" || s == "mdash" then Some(MilliDash)
    else if s == "uDASH" || s == "udash" then Some(MicroDash)
    else if s == "nDASH" || s == "ndash" then Some(NanoDash)
    else if s == "pDASH" || s == "pdash" then Some(PicoDash)
    else if s == "bit" || s == "bits" || s == "BIT" || s == "BITS" then Some(Bit)
    else if s == "SATOSHI" || s == "satoshi" || s == "SATOSHIS" || s == "satoshis" ||
            s == "SAT" || s == "sat" || s == "SATS" || s == "sats" then Some(Satoshi)
    else if s == "mSAT" || s == "msat" || s == "mSATs" || s == "msats" then Some(MilliSatoshi)
    else None
  }

  const CONFUSING_FORMS := ["Msat", "Msats", "MSAT", "MSATS", "MSat", "MSats", "MDASH", "MDash", "PDASH"]

  function FromStr(s: string): (r: Result<Denomination, ParseError>) {
    if s in CONFUSING_FORMS then Err(PossiblyConfusingDenomination(s))
    else match Forms(s)
      case Some(d) => Ok(d)
      case None => Err(UnknownDenomination(s))
  }

  // ----- upper and lower case -----

  function LowerChar(c: char): char {
    if 'A' <= c <= 'Z' then 'a' + (c - 'A') else c
  }

  function UpperChar(c: char): char {
    if 'a' <= c <= 'z' then 'A' + (c - 'a') else c
  }

  function Lower(s: string): (t: string)
    ensures |t| == |s| && forall i :: 0 <= i < |s| ==> t[i] == LowerChar(s[i])
  {
    seq(|s|, i requires 0 <= i < |s| => LowerChar(s[i]))
  }

  function Upper(s: string): (t: string)
    ensures |t| == |s| && forall i :: 0 <= i < |s| ==> t[i] == UpperChar(s[i])
  {
    seq(|s|, i requires 0 <= i < |s| => UpperChar(s[i]))
  }

  // ----- names -----

  /** The fourteen names, in lower case. */
  function Named(l: string): Option<Denomination> {
    if l == "dash" then Some(Dash)
    else if l == "cdash" then Some(CentiDash)
    else if l == "mdash" then Some(MilliDash)
    else if l == "udash" then Some(MicroDash)
    else if l == "ndash" then Some(NanoDash)
    else if l == "pdash" then Some(PicoDash)
    else if l == "bit" || l == "bits" then Some(Bit)
    else if l == "sat" || l == "sats" || l == "satoshi" || l == "satoshis" then Some(Satoshi)
    else if l == "msat" || l == "msats" then Some(MilliSatoshi)
    else None
  }

  /** Names that start with the sign of an SI prefix. */
  predicate Prefixed(d: Denomination) {
    d.CentiDash? || d.MilliDash? || d.MicroDash? || d.NanoDash? || d.PicoDash? || d.MilliSatoshi?
  }

  /** A name in upper case behind its prefix. */
  function Shout(l: string, d: Denomination): string {
    if Prefixed(d) && l != [] then l[..1] + Upper(l[1..]) else Upper(l)
  }

  /** A mixture of upper and lower case of the name l that the code recognises. */
  predicate Spelled(s: string, l: string, d: Denomination) {
    s == l || (s == Shout(l, d) && s != "mSATS") || s == "mSATs"
  }

  /** What the documentation promises: any mixture, except a capital prefix. */
  predicate Promised(s: string, d: Denomination) {
    Named(Lower(s)) == Some(d) && (Prefixed(d) ==> s != [] && s[0] == LowerChar(s[0]))
  }

  // ----- what is recognised -----

  /** A word in lower case and in capitals. */
  ghost predicate Cases(word: string, capitals: string) {
    Lower(word) == word && Lower(capitals) == word && Upper(word) == capitals
  }

  lemma WithPrefix(p: char, word: string, capitals: string)
    requires 'a' <= p <= 'z' && Cases(word, capitals)
    ensures Lower([p] + word) == [p] + word && Lower([p] + capitals) == [p] + word
    ensures ([p] + word)[..1] + Upper(([p] + word)[1..]) == [p] + capitals
  {
    assert ([p] + word)[1..] == word;
  }

  lemma ShortWords()
    ensures Cases("dash", "DASH") && Cases("bit", "BIT") && Cases("bits", "BITS")
    ensures Cases("sat", "SAT") && Cases("sats", "SATS")
  {
  }

  lemma LongWords()
    ensures Cases("satoshi", "SATOSHI") && Cases("satoshis", "SATOSHIS")
  {
  }

  /** l is a name of d and `shout` its form in capitals. */
  ghost predicate Entry(l: string, shout: string, d: Denomination) {
    && Named(l) == Some(d) && Lower(l) == l && Lower(shout) == l && Shout(l, d) == shout
    && (Prefixed(d) ==> l != [] && l[0] == LowerChar(l[0]) && shout != [] && shout[0] == l[0])
  }

  lemma DashNames()
    ensures Named("dash") == Some(Dash) && Named("cdash") == Some(CentiDash) && Named("mdash") == Some(MilliDash)
    ensures Named("udash") == Some(MicroDash) && Named("ndash") == Some(NanoDash) && Named("pdash") == Some(PicoDash)
  {
  }

  lemma SatoshiNames()
    ensures Named("bit") == Named("bits") == Some(Bit)
    ensures Named("sat") == Named("sats") == Named("satoshi") == Named("satoshis") == Some(Satoshi)
    ensures Named("msat") == Named("msats") == Some(MilliSatoshi)
  {
  }

  lemma PlainEntry(l: string, shout: string, d: Denomination)
    requires Named(l) == Some(d) && !Prefixed(d) && Cases(l, shout)
    ensures Entry(l, shout, d)
  {
    hide Named;
  }

  lemma PrefixedEntry(p: char, word: string, capitals: string, d: Denomination)
    requires 'a' <= p <= 'z' && Cases(word, capitals) && Named([p] + word) == Some(d) && Prefixed(d)
    ensures Entry([p] + word, [p] + capitals, d)
  {
    hide Named;
    WithPrefix(p, word, capitals);
  }

  lemma DashEntries()
    ensures Entry("dash", "DASH", Dash) && Entry("cdash", "cDASH", CentiDash) && Entry("mdash", "mDASH", MilliDash)
    ensures Entry("udash", "uDASH", MicroDash) && Entry("ndash", "nDASH", NanoDash) && Entry("pdash", "pDASH", PicoDash)
  {
    hide Named, Cases, Entry;
    ShortWords();
    DashNames();
    PlainEntry("dash", "DASH", Dash);
    assert ['c'] + "dash" == "cdash" && ['c'] + "DASH" == "cDASH";
    PrefixedEntry('c', "dash", "DASH", CentiDash);
    assert ['m'] + "dash" == "mdash" && ['m'] + "DASH" == "mDASH";
    PrefixedEntry('m', "dash", "DASH", MilliDash);
    assert ['u'] + "dash" == "udash" && ['u'] + "DASH" == "uDASH";
    PrefixedEntry('u', "dash", "DASH", MicroDash);
    assert ['n'] + "dash" == "ndash" && ['n'] + "DASH" == "nDASH";
    PrefixedEntry('n', "dash", "DASH", NanoDash);
    assert ['p'] + "dash" == "pdash" && ['p'] + "DASH" == "pDASH";
    PrefixedEntry('p', "dash", "DASH", PicoDash);
  }

  lemma SatoshiEntries()
    ensures Entry("bit", "BIT", Bit) && Entry("bits", "BITS", Bit)
    ensures Entry("sat", "SAT", Satoshi) && Entry("sats", "SATS", Satoshi)
    ensures Entry("satoshi", "SATOSHI", Satoshi) && Entry("satoshis", "SATOSHIS", Satoshi)
    ensures Entry("msat", "mSAT", MilliSatoshi) && Entry("msats", "mSATS", MilliSatoshi)
  {
    hide Named, Cases, Entry;
    ShortWords();
    LongWords();
    SatoshiNames();
    PlainEntry("bit", "BIT", Bit);
    PlainEntry("bits", "BITS", Bit);
    PlainEntry("sat", "SAT", Satoshi);
    PlainEntry("sats", "SATS", Satoshi);
    PlainEntry("satoshi", "SATOSHI", Satoshi);
    PlainEntry("satoshis", "SATOSHIS", Satoshi);
    assert ['m'] + "sat" == "msat" && ['m'] + "SAT" == "mSAT";
    PrefixedEntry('m', "sat", "SAT", MilliSatoshi);
    assert ['m'] + "sats" == "msats" && ['m'] + "SATS" == "mSATS";
    PrefixedEntry('m', "sats", "SATS", MilliSatoshi);
  }

  /** Texts that one entry of the table allows. */
  ghost predicate FormOf(s: string, l: string, shout: string) {
    s == l || s == shout
  }

  /** The entry settles every text that has its letters. */
  ghost predicate Covers(s: string, l: string, shout: string, d: Denomination) {
    && (FormOf(s, l, shout) && s != "mSATS" ==> Promised(s, d) && Spelled(s, Lower(s), d))
    && (Lower(s) == l && Spelled(s, Lower(s), d) ==> (FormOf(s, l, shout) && s != "mSATS") || s == "mSATs")
  }

  lemma EntryForms(l: string, shout: string, d: Denomination, s: string)
    requires Entry(l, shout, d)
    ensures Covers(s, l, shout, d)
  {
    hide Named;
  }

  /** The forms by denomination. */
  ghost predicate Form(s: string, d: Denomination) {
    match d
    case Dash => FormOf(s, "dash", "DASH")
    case CentiDash => FormOf(s, "cdash", "cDASH")
    case MilliDash => FormOf(s, "mdash", "mDASH")
    case MicroDash => FormOf(s, "udash", "uDASH")
    case NanoDash => FormOf(s, "ndash", "nDASH")
    case PicoDash => FormOf(s, "pdash", "pDASH")
    case Bit => FormOf(s, "bit", "BIT") || FormOf(s, "bits", "BITS")
    case Satoshi =>
      || FormOf(s, "sat", "SAT") || FormOf(s, "sats", "SATS")
      || FormOf(s, "satoshi", "SATOSHI") || FormOf(s, "satoshis", "SATOSHIS")
    case MilliSatoshi => FormOf(s, "msat", "mSAT") || FormOf(s, "msats", "mSATs")
  }

  lemma FormsAreForms(s: string)
    ensures Forms(s).Some? ==> Form(s, Forms(s).value)
    ensures forall d :: Form(s, d) ==> Forms(s).Some?
  {
  }

  lemma NamesByName(l: string, d: Denomination)
    requires Named(l) == Some(d)
    ensures match d
            case Dash => l == "dash"
            case CentiDash => l == "cdash"
            case MilliDash => l == "mdash"
            case MicroDash => l == "udash"
            case NanoDash => l == "ndash"
            case PicoDash => l == "pdash"
            case Bit => l == "bit" || l == "bits"
            case Satoshi => l == "sat" || l == "sats" || l == "satoshi" || l == "satoshis"
            case MilliSatoshi => l == "msat" || l == "msats"
  {
  }

  lemma OddForm()
    ensures Promised("mSATs", MilliSatoshi) && Spelled("mSATs", Lower("mSATs"), MilliSatoshi)
    ensures Lower("mSATs") == "msats" == Lower("mSATS")
  {
    hide Named;
    SatoshiNames();
    assert Lower("mSATs") == "msats" == Lower("mSATS");
  }

  /** Every entry of a denomination, applied to s. */
  lemma AllEntries(s: string, d: Denomination)
    ensures match d
            case Dash => Covers(s, "dash", "DASH", d)
            case CentiDash => Covers(s, "cdash", "cDASH", d)
            case MilliDash => Covers(s, "mdash", "mDASH", d)
            case MicroDash => Covers(s, "udash", "uDASH", d)
            case NanoDash => Covers(s, "ndash", "nDASH", d)
            case PicoDash => Covers(s, "pdash", "pDASH", d)
            case Bit => Covers(s, "bit", "BIT", d) && Covers(s, "bits", "BITS", d)
            case Satoshi =>
              && Covers(s, "sat", "SAT", d) && Covers(s, "sats", "SATS", d)
              && Covers(s, "satoshi", "SATOSHI", d) && Covers(s, "satoshis", "SATOSHIS", d)
            case MilliSatoshi => Covers(s, "msat", "mSAT", d) && Covers(s, "msats", "mSATS", d)
  {
    hide Entry, Covers;
    if d.Bit? || d.Satoshi? || d.MilliSatoshi? {
      SatoshiEntries();
    } else {
      DashEntries();
    }
    match d
    case Dash => EntryForms("dash", "DASH", d, s);
    case CentiDash => EntryForms("cdash", "cDASH", d, s);
    case MilliDash => EntryForms("mdash", "mDASH", d, s);
    case MicroDash => EntryForms("udash", "uDASH", d, s);
    case NanoDash => EntryForms("ndash", "nDASH", d, s);
    case PicoDash => EntryForms("pdash", "pDASH", d, s);
    case Bit =>
      EntryForms("bit", "BIT", d, s);
      EntryForms("bits", "BITS", d, s);
    case Satoshi =>
      EntryForms("sat", "SAT", d, s);
      EntryForms("sats", "SATS", d, s);
      EntryForms("satoshi", "SATOSHI", d, s);
      EntryForms("satoshis", "SATOSHIS", d, s);
    case MilliSatoshi =>
      EntryForms("msat", "mSAT", d, s);
      EntryForms("msats", "mSATS", d, s);
  }

  /** The recognised forms are the promised texts in a recognised spelling. */
  lemma FormIsSpelled(s: string, d: Denomination)
    ensures Form(s, d) <==> Promised(s, d) && Spelled(s, Lower(s), d)
  {
    hide Named, Spelled, Lower;
    AllEntries(s, d);
    OddForm();
    if Promised(s, d) {
      NamesByName(Lower(s), d);
    }
  }

  lemma FormsByName(s: string, d: Denomination)
    ensures Forms(s) == Some(d) <==> Form(s, d)
  {
    hide Forms, Form, Named, Lower, Spelled;
    FormsAreForms(s);
    FormIsSpelled(s, d);
    if Forms(s).Some? {
      FormIsSpelled(s, Forms(s).value);
    }
  }

  /** No recognised form is a confusing one. */
  lemma NotConfusing(s: string, d: Denomination)
    requires Form(s, d)
    ensures s !in CONFUSING_FORMS
  {
    assert s[0] != 'M' && s[0] != 'P';
    assert forall c :: c in CONFUSING_FORMS ==> c[0] == 'M' || c[0] == 'P';
  }

  /**
   A text is read as d exactly when it is promised and spelled in one of the recognised
   mixtures: all lower case, or capitals behind the prefix, with "mSATs" in place of "mSATS".
   */
  lemma RecognisedExactly(s: string, d: Denomination)
    ensures FromStr(s) == Ok(d) <==> Promised(s, d) && Spelled(s, Lower(s), d)
  {
    hide Forms, Form, Promised, Spelled;
    FormsByName(s, d);
    FormIsSpelled(s, d);
    if Form(s, d) {
      NotConfusing(s, d);
    }
  }

  /** A promised text in no recognised spelling is unknown. */
  lemma Unrecognised(s: string, d: Denomination)
    requires Promised(s, d) && !Spelled(s, Lower(s), d) && s !in CONFUSING_FORMS
    ensures FromStr(s) == Err(UnknownDenomination(s))
  {
    hide Forms, Named, Lower, Spelled;
    if FromStr(s).Ok? {
      RecognisedExactly(s, FromStr(s).value);
    }
  }

  /** Mixtures that are promised and refused. */
  lemma PromiseBroken()
    ensures Promised("Dash", Dash) && FromStr("Dash") == Err(UnknownDenomination("Dash"))
    ensures Promised("mSATS", MilliSatoshi) && FromStr("mSATS") == Err(UnknownDenomination("mSATS"))
  {
    hide FromStr, Named;
    DashNames();
    SatoshiNames();
    ShortWords();
    assert Lower("Dash") == "dash" && Upper("dash")[1] == 'A';
    Unrecognised("Dash", Dash);
    OddForm();
    Unrecognised("mSATS", MilliSatoshi);
  }

  /** The refused abbreviations: a capital M before satoshi or dash, and one with a capital P. */
  lemma ConfusingExactly(s: string)
    ensures FromStr(s) == Err(PossiblyConfusingDenomination(s)) <==>
              || s == "PDASH"
              || (|s| > 0 && s[0] == 'M' &&
                  s[1..] in {"sat", "sats", "Sat", "Sats", "SAT", "SATS", "Dash", "DASH"})
  {
    hide Forms;
    ConfusingTails();
    if |s| > 0 && s[0] == 'M' {
      assert s == ['M'] + s[1..];
    }
  }

  lemma ConfusingTails()
    ensures ['M'] + "sat" == "Msat" && ['M'] + "sats" == "Msats" && ['M'] + "Sat" == "MSat" && ['M'] + "Sats" == "MSats"
    ensures ['M'] + "SAT" == "MSAT" && ['M'] + "SATS" == "MSATS"
    ensures ['M'] + "Dash" == "MDash" && ['M'] + "DASH" == "MDASH"
    ensures "Msat"[1..] == "sat" && "Msats"[1..] == "sats" && "MSat"[1..] == "Sat" && "MSats"[1..] == "Sats"
    ensures "MSAT"[1..] == "SAT" && "MSATS"[1..] == "SATS" && "MDash"[1..] == "Dash" && "MDASH"[1..] == "DASH"
  {
  }

  /** The printed names. */
  lemma PrintedNames()
    ensures Name(Dash) == "DASH" && Name(CentiDash) == "cDASH" && Name(MilliDash) == "mDASH"
    ensures Name(MicroDash) == "uDASH" && Name(NanoDash) == "nDASH" && Name(PicoDash) == "pDASH"
    ensures Name(Bit) == "bits" && Name(Satoshi) == "satoshi" && Name(MilliSatoshi) == "msat"
  {
  }

  /** Every printed name is read back as its own denomination. */
  lemma NamesReadBack(denom: Denomination)
    ensures FromStr(Name(denom)) == Ok(denom)
  {
    hide Forms;
    FormsByName(Name(denom), denom);
    NotConfusing(Name(denom), denom);
  }
}
