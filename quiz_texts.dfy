/** The fixed quizzes the quiz endpoint (api/quiz.ts) falls back to. */
module QuizTexts {
  /** One true/false quiz. */
  datatype Quiz = Quiz(question: string, answer: bool, explanation: string, tip: string, relatedPolicy: string)

  /** The wording of a quiz: everything but its answer. */
  datatype Wording = Wording(question: string, explanation: string, tip: string, relatedPolicy: string)

  /** `getFallbackQuizzes`: five fixed quizzes, three answered true and two
      false. The answers and the wordings are kept apart, so that a proof
      about the answers does not unfold the texts. */
  function FallbackQuizzes(): (r: seq<Quiz>)
    ensures |r| == 5
  {
    seq(5, i requires 0 <= i < 5 =>
      Quiz(FallbackWordings[i].question, FallbackAnswers[i], FallbackWordings[i].explanation,
           FallbackWordings[i].tip, FallbackWordings[i].relatedPolicy))
  }

  /** The answers of the five quizzes, in the order the endpoint lists them. */
  const FallbackAnswers: seq<bool> := [true, true, false, false, true]

  /** The wordings of the five quizzes, in the same order. */
  const FallbackWordings: seq<Wording> := [
    Wording(
      "소상공인 정책자금은 신용점수 600점 이하여도 신청할 수 있다",
      "맞습니다! 신용보증재단의 특례보증을 통해 저신용자도 정책자금을 이용할 수 있습니다.",
      "신용점수가 낮아도 포기하지 마세요. 지역신용보증재단에서 보증을 받으면 대출이 가능합니다.",
      "소상공인 특례보증"),
    Wording(
      "음식점을 운영하면 외식업 전용 금융 지원을 받을 수 있다",
      "맞습니다! 외식업 자영업자를 위한 별도의 협약보증 상품이 있습니다.",
      "국민은행과 지역신용보증재단이 협약한 '외식업 자영업자 금융지원' 상품을 확인해보세요.",
      "외식업 자영업자 금융지원 협약보증"),
    Wording(
      "소상공인 정책자금 대출 이자는 무조건 연 5% 이상이다",
      "틀립니다! 정책자금은 시중금리보다 훨씬 낮은 연 2~3%대 금리로 제공됩니다.",
      "이자차액 보전금 지원을 받으면 실질 금리를 더 낮출 수 있어요!",
      "소상공인 이자차액 보전금 지원"),
    Wording(
      "사업자등록 후 1년이 지나야만 정책자금을 신청할 수 있다",
      "틀립니다! 예비창업자나 창업 1년 미만도 신청 가능한 정책이 많습니다.",
      "창업 초기라면 '청년 소상공인 특례보증'이나 '예비창업패키지'를 확인해보세요.",
      "청년 소상공인 특례보증"),
    Wording(
      "연매출 10억 원 미만이면 소상공인으로 분류된다",
      "맞습니다! 업종에 따라 다르지만, 대부분의 업종에서 연매출 10억 원 미만은 소상공인입니다.",
      "소상공인 기준: 제조업 10인 미만, 서비스업 5인 미만의 상시 근로자 수도 중요해요.",
      "소상공인 기본법")
  ]
}
