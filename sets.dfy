/** Small facts about sets used when a loop iterates one in an unspecified order. */
module Sets {
  /** One element of a non-empty set, as `for x in s` would visit next. */
  method Pick<T>(s: set<T>) returns (x: T)
    requires s != {}
    ensures x in s
  {
    x :| x in s;
  }

  lemma MultisetAddNew<T>(s: set<T>, r: T)
    requires r !in s
    ensures multiset(s + {r}) == multiset(s) + multiset{r}
  {
    assert forall y :: multiset(s + {r})[y] == (multiset(s) + multiset{r})[y];
  }
}
