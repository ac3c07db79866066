module Options {
  datatype Option<+T> = None | Some(value: T)
}

/** The entries of the lottery (script.js:29-47): one card per image file, or
    ten placeholder guests when there is no image list. */
module Cards {
  import opened Decimal
  import opened ImageNames

  /** A card is either an image with a display name or a coloured placeholder
      (the `isPlaceholder` flag of the source is the constructor). */
  datatype Card =
    | ImageCard(image: string, name: string)
    | PlaceholderCard(color: string, name: string)

  const ImageDirectory: string := "images/"

  /** The card made for one entry of the image list (script.js:29-33). */
  function FromImage(file: string): Card {
    ImageCard(ImageDirectory + file, StripExtension(file))
  }

  /** `imageList.map(...)`: one card per file, in list order. */
  function ImageCards(files: seq<string>): (r: seq<Card>)
    ensures |r| == |files|
    ensures forall i :: 0 <= i < |files| ==>
      (r[i].ImageCard? && r[i].image == ImageDirectory + files[i] &&
       r[i].name == StripExtension(files[i]))
  {
    seq(|files|, i requires 0 <= i < |files| => FromImage(files[i]))
  }

  const Colors: seq<string> := [
    "#2c5aa0", "#c41e3a", "#2d8659", "#8b4513", "#4b0082",
    "#ff6347", "#20b2aa", "#daa520", "#9370db", "#1e90ff"
  ]

  const PlaceholderCount: nat := 10

  /** The i-th placeholder pushed by the loop at script.js:41-47. */
  function Placeholder(i: nat): Card {
    PlaceholderCard(Colors[i % |Colors|], "Guest " + NatToString(i + 1))
  }

  function Placeholders(): (r: seq<Card>)
    ensures |r| == PlaceholderCount
  {
    seq(PlaceholderCount, (i: nat) => Placeholder(i))
  }

  predicate Distinct<T(==)>(s: seq<T>) {
    forall i, j :: 0 <= i < j < |s| ==> s[i] != s[j]
  }

  /** The placeholder set: ten placeholders, card i named "Guest <i+1>" with
      colour i mod 10, no two alike. */
  lemma PlaceholdersShape()
    ensures |Placeholders()| == 10
    ensures forall i :: 0 <= i < 10 ==>
      (Placeholders()[i].PlaceholderCard? &&
       Placeholders()[i].name == "Guest " + NatToString(i + 1) &&
       Placeholders()[i].color == Colors[i % 10])
    ensures Distinct(Placeholders())
  {
    var p := Placeholders();
    forall i, j | 0 <= i < j < |p| ensures p[i] != p[j] {
      if p[i].name == p[j].name {
        var a, b := NatToString(i + 1), NatToString(j + 1);
        assert ("Guest " + a)[6..] == a;
        assert ("Guest " + b)[6..] == b;
        NatToStringInjective(i + 1, j + 1);
      }
    }
  }

  /** Distinct files give distinct cards, since the image path keeps the
      whole file name. */
  lemma ImageCardsDistinct(files: seq<string>)
    requires Distinct(files)
    ensures Distinct(ImageCards(files))
  {
    var c := ImageCards(files);
    forall i, j | 0 <= i < j < |c| ensures c[i] != c[j] {
      assert (ImageDirectory + files[i])[|ImageDirectory|..] == files[i];
      assert (ImageDirectory + files[j])[|ImageDirectory|..] == files[j];
    }
  }
}
