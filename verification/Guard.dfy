/**
 A way to delay the unfolding of a definition. A predicate that says `forall key :: Open(key) && key == K ==> P` means
 just `P`, but a proof has to mention `Open(K)` before `P` comes into play.
 */
module Guards {

  datatype Key = PAGING | BLOCK | SIZING | SEARCH | FOUND | IMAGE | RUNS | HEAP | GROWTH | WORDS

  ghost predicate Open(key: Key) {
    true
  }
}
