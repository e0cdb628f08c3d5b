/** The testimonial rows both importers write, and the table that holds
    them. Rows are only ever appended. */
module Testimonials {
  import opened Wrappers

  /** The bytes of a screenshot image. */
  type Png = seq<bv8>

  /** The fields the `Testimonial` model declares in `core/models.py`. */
  const DeclaredFields: set<string> := {"agent", "client_name", "review_text", "screenshot"}

  /** Django's model constructor raises `TypeError` for a keyword argument
      that names no declared field, so a row can be built only from these. */
  predicate ConstructorAccepts(keywords: set<string>) {
    keywords <= DeclaredFields
  }

  /** The row the importers write. It carries `title` and `isFeatured`
      besides the declared fields. */
  datatype Testimonial = Testimonial(
    agent: nat,
    title: string,
    clientName: string,
    reviewText: string,
    isFeatured: bool,
    screenshot: Option<Png>)

  class Table {
    var rows: seq<Testimonial>

    constructor ()
      ensures rows == []
    {
      rows := [];
    }

    /** `testimonial.save()` of a new row. */
    method Insert(t: Testimonial)
      modifies this
      ensures rows == old(rows) + [t]
    {
      rows := rows + [t];
    }
  }
}
