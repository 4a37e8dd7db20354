/** The row types shared by the store, the session helpers and the handlers. */
module ObjectTypes {

  /**
   * A row of the `question` table: its id, the prompt, the correct answer
   * and three wrong answers. The same shape is what the sequencer returns,
   * but then `id` holds the membership id (quiz_content.id).
   */
  datatype Question = Question(
    id: int,
    question: string,
    answer: string,
    wrong1: string,
    wrong2: string,
    wrong3: string)

  /** A row of the `quiz` table. */
  datatype Quiz = Quiz(id: int, name: string)

  /** A row of the `quiz_content` table: one membership of a question in a quiz. */
  datatype QuizContent = QuizContent(id: int, quizId: int, questionId: int)
}
