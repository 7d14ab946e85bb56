/** The records of `lib/types.ts`. Ratings are whole numbers; an age is any number. */
module Types {

  datatype Address = Address(
    address: string, city: string, state: string, postalCode: string, country: string)

  datatype Company = Company(department: string, name: string, title: string)

  datatype ProjectStatus = Completed | InProgress | Pending

  datatype Project = Project(id: int, name: string, status: ProjectStatus, completion: int)

  datatype Feedback = Feedback(id: int, reviewer: string, rating: int, comment: string, date: string)

  /**
   * An employee. The optional `bio`, `projects` and `feedback` of the source are
   * modelled as always present; an absent one behaves like the empty value.
   */
  datatype Employee = Employee(
    id: int,
    firstName: string,
    lastName: string,
    email: string,
    age: real,
    phone: string,
    address: Address,
    company: Company,
    image: string,
    rating: int,
    bio: string,
    projects: seq<Project>,
    feedback: seq<Feedback>)
  {
    function Department(): string { company.department }
  }
}
