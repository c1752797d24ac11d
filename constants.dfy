/** The built-in sample catalogue the store is seeded with. */
module Constants {
  import opened Types

  const KybalionDescription: string :=
    "A study of the Hermetic Philosophy of Ancient Egypt and Greece. It explores the seven principles that govern reality."
  const MeditationsDescription: string :=
    "A series of personal writings by the Roman Emperor, recording his private notes to himself and ideas on Stoic philosophy."
  const HeroDescription: string :=
    "Work of comparative mythology that outlines the Hero's Journey, a universal motif of adventure and transformation."
  const ArendtDescription: string :=
    "A deep analysis of the historical conditions that led to the rise of totalitarian regimes in the 20th century."

  /** INITIAL_BOOKS. Every entry's `createdAt` is the clock reading taken
      once, when the constants were loaded: `loadTime`. The four ids are
      distinct, and every record has a title, an author and a cover. */
  function InitialBooks(loadTime: int): (r: seq<Book>)
    ensures |r| == 4
    ensures forall i, j :: 0 <= i < j < |r| ==> r[i].id != r[j].id
    ensures forall i :: 0 <= i < |r| ==> r[i].title != "" && r[i].author != "" && r[i].coverUrl != ""
  {
    [ Book("1", "The Kybalion", "Three Initiates", Philosophy, "Hermeticism", KybalionDescription,
           "https://picsum.photos/seed/kybalion/400/600", "#", loadTime),
      Book("2", "Meditations", "Marcus Aurelius", Philosophy, "Stoicism", MeditationsDescription,
           "https://picsum.photos/seed/meditations/400/600", "#", loadTime),
      Book("3", "The Hero with a Thousand Faces", "Joseph Campbell", Psychology, "Mythology", HeroDescription,
           "https://picsum.photos/seed/hero/400/600", "#", loadTime),
      Book("4", "The Origins of Totalitarianism", "Hannah Arendt", Political, "History", ArendtDescription,
           "https://picsum.photos/seed/arendt/400/600", "#", loadTime)
    ]
  }

  /** The seed holds four records with the ids "1" to "4", all stamped with
      the load time and none with a file attached yet ("#"). */
  lemma SeedShape(loadTime: int)
    ensures var seed := InitialBooks(loadTime);
      && |seed| == 4
      && (forall i :: 0 <= i < 4 ==> seed[i].createdAt == loadTime && seed[i].fileUrl == "#")
      && seed[0].id == "1" && seed[1].id == "2" && seed[2].id == "3" && seed[3].id == "4"
  {
  }
}
