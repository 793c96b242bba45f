/** The package's map scenario, stated for every hash function. */
module PersistentMapScenario {
  import opened PersistentMap

  /** Setting "hello" twice leaves the first map untouched, both maps of size
      1, and deleting "hello" from the second gives the empty map, with
      either Delete. */
  lemma MapImmutable(H: string -> Hash)
    ensures var world := Set(NewMap(), H, "hello", "world");
            var kids := Set(world, H, "hello", "kids");
            && Valid(world) && Valid(kids)
            && Lookup(world, H, "hello") == Some("world") && Size(world) == 1
            && Lookup(kids, H, "hello") == Some("kids") && Size(kids) == 1
            && Size(Delete(kids, H, "hello")) == 0
            && Size(DeleteCorrected(kids, H, "hello")) == 0
            && ForEach(Delete(kids, H, "hello")) == []
  {
  }
}
