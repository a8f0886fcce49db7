/** The documents the pages read from and write to the store, as plain values.
    Ids of students are canonical integers; ids of class documents are the
    store's opaque keys, modelled as strings. */
module Records {

  datatype Option<+T> = None | Some(value: T)

  /** A document of the "students" collection. Uploaded documents carry no
      tag; the class view reads a tag when one was stored. */
  datatype Student = Student(studentId: int, name: string, tag: Option<string>)

  /** A document of the "remarks" collection; only the author's id and the
      remark's type are read here. */
  datatype Remark = Remark(studentId: int, kind: string)

  /** The value a remark's type must have to be counted as positive. */
  const PositiveKind: string := "positive"

  /** The three choices of the semester drop-down. */
  datatype Semester = Spring | Fall | Virtual

  /** The five choices of the section drop-down ("none", "a" .. "d"). */
  datatype Section = NoSection | A | B | C | D

  /** The fields of a document of the "classes" collection. */
  datatype ClassSection = ClassSection(
    courseName: string,
    orderCode: int,
    professorId: string,
    section: Section,
    semester: Semester,
    year: int,
    studentIds: seq<int>)

  /** A class document together with the id the store gave it. */
  datatype StoredClass = StoredClass(classId: string, info: ClassSection)
}
