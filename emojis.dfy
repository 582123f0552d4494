/**
 * The eight card faces of the game. Their identity is all the rules use:
 * two cards match when their faces are equal, so only distinctness matters.
 */
module Emojis {
  type Emoji = string

  const Heart: Emoji := "\U{2764}"
  const Rose: Emoji := "\U{1F339}"
  const HeartEyes: Emoji := "\U{1F60D}"
  const House: Emoji := "\U{1F3E0}"
  const ThumbsUp: Emoji := "\U{1F44D}"
  const Cake: Emoji := "\U{1F382}"
  const CatDragon: Emoji := "\U{1F431}\U{200D}\U{1F409}"
  const Joy: Emoji := "\U{1F602}"

  /** No face is listed twice. */
  predicate Distinct(faces: seq<Emoji>) {
    forall i, j :: 0 <= i < j < |faces| ==> faces[i] != faces[j]
  }

  /** The eight faces, each listed once. */
  const Faces: seq<Emoji> := [Heart, Rose, HeartEyes, House] + [ThumbsUp, Cake, CatDragon, Joy]

  lemma {:induction false} DistinctOccursOnce(faces: seq<Emoji>, e: Emoji)
    requires Distinct(faces)
    ensures multiset(faces)[e] == if e in faces then 1 else 0
  {
    if faces != [] {
      DistinctOccursOnce(faces[1..], e);
      assert faces == [faces[0]] + faces[1..];
    }
  }

  /**
   * A deck whose faces are the eight faces listed twice, in any order, holds
   * each face exactly twice and no other face.
   */
  lemma PairedDeckHasEachFaceTwice(deck: seq<Emoji>, e: Emoji)
    requires multiset(deck) == multiset(Faces + Faces)
    ensures |deck| == 16 && |Faces| == 8 && Distinct(Faces)
    ensures multiset(deck)[e] == if e in Faces then 2 else 0
  {
    assert Distinct(Faces);
    DistinctOccursOnce(Faces, e);
    assert |deck| == |multiset(deck)| == |Faces + Faces|;
  }
}
