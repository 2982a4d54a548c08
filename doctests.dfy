/**
 * The two examples of the module documentation of `search`, played on an
 * index page that holds just the two entries they rely on: the glossary
 * term `lambda` and the function `sys.exit`, listed under the text
 * `exit() (in module sys)`.
 */
module Doctests {
  import opened Wrappers
  import opened Text
  import opened Weight
  import opened Keys
  import opened Index

  const LambdaLink: string := "glossary.html#term-lambda"
  const ExitLink: string := "library/sys.html#sys.exit"
  const ExitText: string := "exit() (in module sys)"

  const DoctestPairs: seq<(string, string)> := [(LambdaLink, "lambda"), (ExitLink, ExitText)]

  const LambdaRegs: seq<Registration> := [
    Registration("lambda", LambdaLink),
    Registration("term.lambda", LambdaLink),
    Registration("glossary", "glossary.html"),
    Registration("lambda", LambdaLink)
  ]

  const ExitRegs: seq<Registration> := [
    Registration("exit", ExitLink),
    Registration("sys.exit", ExitLink),
    Registration("sys", "library/sys.html"),
    Registration(ExitText, ExitLink)
  ]

  lemma LambdaLinkParts()
    ensures LambdaLink == "glossary.html" + "#" + "term-lambda"
    ensures Free("glossary.html", IsHash) && Free("term-lambda", IsHash)
  {
  }

  lemma ExitLinkParts()
    ensures ExitLink == "library/sys.html" + "#" + "sys.exit"
    ensures Free("library/sys.html", IsHash) && Free("sys.exit", IsHash)
  {
  }

  lemma SysExitParts()
    ensures "sys.exit" == "sys" + ['.'] + "exit"
    ensures "sys" + "." + "exit" == "sys.exit"
    ensures Free("sys", IsNonWordChar) && Free("exit", IsNonWordChar)
  {
  }

  /** The registrations made for the glossary entry of `lambda`. */
  lemma LambdaDerives()
    ensures Derive(LambdaLink, "lambda") == Ok(LambdaRegs)
  {
    LambdaLinkParts();
    TermLambdaParts();
    SplitTwo("term", "lambda", IsNonWordChar, '-');
    GlossaryPage();
    DeriveTwoChunks("glossary.html", "term-lambda", "term", "lambda", "glossary", "lambda");
  }

  /** The registrations made for the entry of `sys.exit`. */
  lemma ExitDerives()
    ensures Derive(ExitLink, ExitText) == Ok(ExitRegs)
  {
    ExitLinkParts();
    SysExitParts();
    SplitTwo("sys", "exit", IsNonWordChar, '.');
    SysPage();
    DeriveTwoChunks("library/sys.html", "sys.exit", "sys", "exit", "sys", ExitText);
  }

  /** The whole page builds, the glossary entry's registrations first. */
  lemma DoctestRegistrations()
    ensures AllRegistrations(DoctestPairs) == Ok(LambdaRegs + ExitRegs)
  {
    LambdaDerives();
    ExitDerives();
    TwoPairPage((LambdaLink, "lambda"), (ExitLink, ExitText), LambdaRegs, ExitRegs);
  }

  /** Only the glossary link is ever filed under `lambda`, and only the `sys.exit` link under `exit`. */
  lemma DoctestKeywordsHaveOneTarget()
    ensures forall r :: r in LambdaRegs + ExitRegs && Lower(r.key) == "lambda" ==> r.link == LambdaLink
    ensures forall r :: r in LambdaRegs + ExitRegs && Lower(r.key) == "exit" ==> r.link == ExitLink
  {
    forall r | r in LambdaRegs + ExitRegs
      ensures |Lower(r.key)| == |r.key|
    {
      LowerIsLower(r.key);
    }
  }

  lemma DocUrl()
    ensures "https://docs.python.org/" + "3.5" + "/" == "https://docs.python.org/3.5/"
  {
  }

  lemma LambdaUrl()
    ensures "https://docs.python.org/3.5/" + LambdaLink == "https://docs.python.org/3.5/glossary.html#term-lambda"
  {
  }

  lemma ExitUrl()
    ensures "https://docs.python.org/3.5/" + ExitLink == "https://docs.python.org/3.5/library/sys.html#sys.exit"
  {
  }

  lemma DoctestKeywords()
    ensures Lower("lambda") == "lambda" && Lower("Lambda") == "lambda" && Lower("exit") == "exit"
    ensures "lambda" !in Overrides && "Lambda" !in Overrides && "exit" !in Overrides
  {
    LowerIsLower("lambda");
    LowerIsLower("exit");
  }

  /**
   * `search('lambda')` and `search('exit')` for version 3.5, whatever the
   * length term of the weight; `Lambda` finds the same page as `lambda`.
   */
  method DoctestSearches(lengthWeight: nat -> real) returns (lambda: Option<string>, capitalised: Option<string>, exit: Option<string>)
    ensures lambda == Some("https://docs.python.org/3.5/glossary.html#term-lambda")
    ensures capitalised == lambda
    ensures exit == Some("https://docs.python.org/3.5/library/sys.html#sys.exit")
  {
    DoctestRegistrations();
    var loaded := PydocIndex.LoadFrom(lengthWeight, DoctestPairs);
    var idx := loaded.value;
    var regs := LambdaRegs + ExitRegs;
    DoctestKeywordsHaveOneTarget();
    DoctestKeywords();
    assert Registration("lambda", LambdaLink) in regs by {
      assert regs[0] == Registration("lambda", LambdaLink);
    }
    assert Registration("exit", ExitLink) in regs by {
      assert regs[4] == Registration("exit", ExitLink);
    }
    SoleTargetIsBest(idx.weight, regs, "lambda", LambdaLink);
    SoleTargetIsBest(idx.weight, regs, "exit", ExitLink);
    DocUrl();
    LambdaUrl();
    ExitUrl();
    lambda := idx.Search("lambda");
    capitalised := idx.Search("Lambda");
    exit := idx.Search("exit");
  }
}
