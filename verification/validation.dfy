/**
 * The string rules enforced by the constructors and by the silently-ignoring
 * setters, and the error a raising constructor reports. Type checks are
 * implied by Dafny's static types; only the length rules remain.
 */
module Validation {

  /** Which constraint a raising constructor reported. */
  datatype ValidationError =
    | EmptyAuthorName      // an author's name has no characters
    | MagazineNameLength   // a magazine's name is shorter than 2 or longer than 16
    | EmptyCategory        // a magazine's category has no characters
    | TitleLength          // an article's title is shorter than 5 or longer than 50

  predicate ValidAuthorName(name: string) {
    |name| > 0
  }

  predicate ValidMagazineName(name: string) {
    2 <= |name| <= 16
  }

  predicate ValidCategory(category: string) {
    |category| > 0
  }

  predicate ValidTitle(title: string) {
    5 <= |title| <= 50
  }
}
