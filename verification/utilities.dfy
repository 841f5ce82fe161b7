/** The page-title helper of the test support code. */
module Utilities {

  const BaseTitle: string := "Ruby on Rails Tutorial Sample App"

  /** The full page title: the base title alone for an empty page title,
      otherwise the base title and the page title joined by " | ". */
  function FullTitle(pageTitle: string): (r: string)
    ensures BaseTitle <= r
    ensures |r| == if pageTitle == [] then |BaseTitle| else |BaseTitle| + 3 + |pageTitle|
    ensures r[|r| - |pageTitle|..] == pageTitle
    ensures pageTitle != [] ==> r[|BaseTitle|..|BaseTitle| + 3] == " | "
  {
    if pageTitle == [] then BaseTitle else BaseTitle + " | " + pageTitle
  }

  /** The contract above determines the title completely: the result is the
      base title exactly when the page title is empty. */
  lemma FullTitleOfEmpty(pageTitle: string)
    ensures FullTitle(pageTitle) == BaseTitle <==> pageTitle == []
  {
  }

  /** Different page titles give different full titles. */
  lemma {:induction false} FullTitleInjective(a: string, b: string)
    requires FullTitle(a) == FullTitle(b)
    ensures a == b
  {
    var r := FullTitle(a);
    assert |a| == |b|;
    assert a == r[|r| - |a|..] == b;
  }
}
