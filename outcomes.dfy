/** The optional-value type shared by the matcher and the hospital lookup:
    `None` stands for Python's `None`, which `get_specialty_spacy` and
    `get_hospital_by_specialty` return when nothing matches. */
module Outcomes {
  datatype Option<T> = None | Some(value: T)
}
