/** The reserved article property names (ArticleMetaNames) and the test
  that says which of them collect several values
  (ArticleMetaNameIsMultiValue).
 */
module ArticleMetaNames {
  import opened Strings

  const Title: string := "title"
  const Author: string := "author"
  const Publisher: string := "publisher"
  const Type: string := "type"
  const TagSet: string := "tagSet"
  const CategorySet: string := "categorySet"
  const Keywords: string := "keywords"
  const Description: string := "description"
  const Content: string := "content"
  const DateCreated: string := "dateCreated"
  const DatePublished: string := "datePublished"
  const DateModified: string := "dateModified"
  const ImageLinkSet: string := "imageLinkSet"
  const Locale: string := "locale"

  /** The fourteen names, in declaration order. */
  const Names: seq<string> := [Title, Author, Publisher, Type, TagSet, CategorySet, Keywords,
    Description, Content, DateCreated, DatePublished, DateModified, ImageLinkSet, Locale]

  /** `test(prop)`: the three set-valued names. */
  function IsMultiValue(name: string): (b: bool)
    ensures b ==> name in Names
    ensures b <==> name == CategorySet || name == ImageLinkSet || name == TagSet
  {
    name == CategorySet || name == ImageLinkSet || name == TagSet
  }

  /** The names are all different. */
  lemma NamesDistinct()
    ensures forall i, j :: 0 <= i < j < |Names| ==> Names[i] != Names[j]
  {
    forall i, j | 0 <= i < j < |Names| ensures Names[i] != Names[j] {
      assert Names[i][..2] != Names[j][..2] || |Names[i]| != |Names[j]| || Names[i][2..] != Names[j][2..];
    }
  }

  /** A reserved name is multi-valued exactly when it ends in "Set". */
  lemma MultiValueIffSetSuffix(name: string)
    requires name in Names
    ensures IsMultiValue(name) <==> EndsWith(name, "Set")
  {
    var i :| 0 <= i < |Names| && Names[i] == name;
    if !IsMultiValue(name) {
      assert name[|name| - 3] != 'S';
    }
  }
}
